/** gl/printf-parse.c: the parser, with its growing arrays and the saturating sizes of gl/xsize.h. */
module PrintfParse {
  import opened MachineInts
  import opened Numerals
  import opened PrintfSpec

  // ----- Checked computation of sizes (gl/xsize.h) -----

  /** `xsum` */
  function Xsum(x: SizeT, y: SizeT): SizeT {
    var sum := (x as int + y as int) % TWO_64;
    if sum >= x then sum else SIZE_MAX
  }

  /** xtimes */
  function Xtimes(n: SizeT, size: SizeT): SizeT
    requires size > 0
  {
    if n as int <= SIZE_MAX / (size as int) then Product(n, size) else SIZE_MAX
  }

  function Product(n: SizeT, size: SizeT): SizeT
    requires size > 0 && n as int <= SIZE_MAX / (size as int)
  {
    ProductFits(n, size);
    n as int * size as int
  }

  lemma ProductFits(n: nat, size: nat)
    requires size > 0 && n <= SIZE_MAX / size
    ensures n * size <= SIZE_MAX
  {
    var q := SIZE_MAX / size;
    assert q * size <= SIZE_MAX;
    assert n * size <= q * size;
  }

  function Min(x: nat, y: nat): nat { if x < y then x else y }

  /** The sums and products are exact up to SIZE_MAX, which stands for everything larger. */
  lemma XsumSaturates(x: SizeT, y: SizeT)
    ensures Xsum(x, y) == Min(x as int + y as int, SIZE_MAX)
  {
  }

  lemma XtimesSaturates(n: SizeT, size: SizeT)
    requires size > 0
    ensures Xtimes(n, size) == Min(n as int * size as int, SIZE_MAX)
  {
    var q := SIZE_MAX / (size as int);
    assert SIZE_MAX < (q + 1) * size as int;
    if n as int > q {
      assert n as int * size as int >= (q + 1) * size as int;
    } else {
      ProductFits(n, size);
    }
  }

  const N_DIRECT_ALLOC: nat := 7
  const SIZEOF_ARGUMENT: SizeT := 32
  const SIZEOF_DIRECTIVE: SizeT := 88

  /** What printf_parse returns: 0, or -1 with errno. */
  datatype Outcome = Parsed | Error | OutOfMemory

  lemma NumberStep(s: string, i: nat, j: nat)
    requires i <= j < |s| && (forall k :: i <= k <= j ==> IsDecimal(s[k]))
    ensures Number(s[i..j + 1]) == Number(s[i..j]) * 10 + (s[j] as nat - '0' as nat)
  {
    DecimalsAreDigits(s[i..j]);
    ValueOfLast(s[i..j], s[j], 10);
    assert s[i..j] + [s[j]] == s[i..j + 1];
  }

  lemma NumberOfNothing(s: string, i: nat)
    requires i <= |s|
    ensures Number(s[i..i]) == 0
  {
    assert s[i..i] == "";
  }

  lemma SaturatedStep(v: nat, d: nat)
    requires d < 10
    ensures Xsum(Xtimes(Min(v, SIZE_MAX), 10), d) == Min(v * 10 + d, SIZE_MAX)
  {
    XtimesSaturates(Min(v, SIZE_MAX), 10);
    XsumSaturates(Xtimes(Min(v, SIZE_MAX), 10), d);
  }

  /** The variables of printf_parse, and the two structures that it fills. */
  class Parser {
    const format: string
    var cp: nat
    var argPosn: nat
    var dir: array<Directive>
    var dirCount: nat
    var arg: array<ArgType>
    var argCount: nat
    var maxWidthLength: nat
    var maxPrecisionLength: nat

    ghost predicate Valid()
      reads this
    {
      && Terminated(format) && cp < |format| && argPosn <= SIZE_MAX
      && dirCount < dir.Length <= SIZE_MAX
      && argCount <= arg.Length <= SIZE_MAX && arg.Length > 0
      && (dir as object) != arg
    }

    /** The arguments registered so far. */
    ghost function Args(): seq<ArgType>
      requires argCount <= arg.Length
      reads this, arg
    {
      arg[..argCount]
    }

    /** The directives read so far. */
    ghost function Dirs(): seq<Directive>
      requires dirCount <= dir.Length
      reads this, dir
    {
      dir[..dirCount]
    }

    constructor (format: string)
      requires Terminated(format)
      ensures Valid() && this.format == format && cp == 0 && argPosn == 0 && Args() == [] && Dirs() == []
      ensures maxWidthLength == 0 && maxPrecisionLength == 0 && fresh(dir) && fresh(arg)
    {
      this.format := format;
      cp, argPosn, dirCount, argCount, maxWidthLength, maxPrecisionLength := 0, 0, 0, 0, 0, 0;
      dir := new Directive[N_DIRECT_ALLOC](_ => EMPTY);
      arg := new ArgType[N_DIRECT_ALLOC](_ => TypeNone);
    }

    // ----- Numbers -----

    /** for (np = cp; *np >= '0' && *np <= '9'; np++) */
    method SkipDigits(start: nat) returns (np: nat)
      requires Valid() && start < |format|
      ensures np == DigitsEnd(format, start)
    {
      np := start;
      while IsDecimal(format[np])
        invariant start <= np < |format| && DigitsEnd(format, np) == DigitsEnd(format, start)
        decreases |format| - np
      {
        np := np + 1;
      }
    }

    /** The same loop once more, computing the number. */
    method ReadNumber(start: nat) returns (np: nat, n: SizeT)
      requires Valid() && start < |format|
      ensures np == DigitsEnd(format, start) && n == Min(Number(format[start..np]), SIZE_MAX)
    {
      hide Number, Xsum, Xtimes;
      np, n := start, 0;
      NumberOfNothing(format, start);
      while IsDecimal(format[np])
        invariant start <= np < |format| && DigitsEnd(format, np) == DigitsEnd(format, start)
        invariant forall k :: start <= k < np ==> IsDecimal(format[k])
        invariant n == Min(Number(format[start..np]), SIZE_MAX)
        decreases |format| - np
      {
        NumberStep(format, start, np);
        SaturatedStep(Number(format[start..np]), format[np] as nat - '0' as nat);
        n := Xsum(Xtimes(n, 10), format[np] as nat - '0' as nat);
        np := np + 1;
      }
    }

    /** "Test for positional argument": cp moves behind the dollar sign if there is one. */
    method ReadPosition() returns (p: Position)
      requires Valid()
      modifies this`cp
      ensures Valid() && p == PositionAt(format, old(cp)) && cp == if p.Given? then p.next else old(cp)
    {
      hide Number, DigitsEnd;
      var np := SkipDigits(cp);
      if IsDecimal(format[cp]) {
        DigitsThere(format, cp);
        if format[np] == '$' {
          var n;
          np, n := ReadNumber(cp);
          if n == 0 {
            return Invalid;
          }
          if n == SIZE_MAX {
            return Invalid;
          }
          cp := np + 1;
          return Given(n - 1, np + 1);
        }
      }
      DigitsThere(format, cp);
      p := Absent;
    }

    // ----- Arguments -----

    /** The growth in REGISTER_ARG: room for argument n. */
    method MakeRoom(n: SizeT) returns (ok: bool)
      requires Valid() && n < SIZE_MAX
      modifies this`arg
      ensures Valid() && Args() == old(Args())
      ensures ok ==> n < arg.Length
      ensures arg == old(arg) || fresh(arg)
    {
      ok := true;
      if n >= arg.Length {
        var capacity := Xtimes(arg.Length, 2);
        if capacity <= n {
          capacity := Xsum(n, 1);
        }
        XsumSaturates(n, 1);
        XtimesSaturates(capacity, SIZEOF_ARGUMENT);
        var memorySize := Xtimes(capacity, SIZEOF_ARGUMENT);
        if memorySize == SIZE_MAX {
          return false;
        }
        ok := *;
        if ok {
          var memory := new ArgType[capacity];
          forall k | 0 <= k < argCount {
            memory[k] := arg[k];
          }
          arg := memory;
        }
      }
    }

    /** while (a->count <= n) a->arg[a->count++].type = TYPE_NONE; */
    method FillUp(n: nat)
      requires Valid() && n < arg.Length
      modifies this`argCount, arg
      ensures Valid() && Args() == Extended(old(Args()), n)
    {
      ghost var before := Args();
      while argCount <= n
        invariant Valid() && |before| <= argCount && (argCount <= n + 1 || argCount == |before|)
        invariant forall k :: 0 <= k < argCount ==> arg[k] == if k < |before| then before[k] else TypeNone
        decreases n + 1 - argCount
      {
        arg[argCount] := TypeNone;
        argCount := argCount + 1;
      }
      assert Args() == Extended(before, n);
    }

    /** REGISTER_ARG */
    method RegisterArg(n: SizeT, t: ArgType) returns (out: Outcome)
      requires Valid() && n < SIZE_MAX
      modifies this`arg, this`argCount, arg
      ensures Valid() && (arg == old(arg) || fresh(arg))
      ensures out == Parsed ==> Register(old(Args()), n, t) == Some(Args())
      ensures out == Error ==> Register(old(Args()), n, t) == None
    {
      var ok := MakeRoom(n);
      if !ok {
        return OutOfMemory;
      }
      FillUp(n);
      ghost var more := Args();
      if arg[n] == TypeNone {
        arg[n] := t;
        assert Args() == more[n := t];
      } else if arg[n] != t {
        return Error;
      }
      out := Parsed;
    }

    /** arg_posn++, for an argument whose number is not given */
    method NextIndex() returns (n: Option<nat>)
      requires Valid()
      modifies this`argPosn
      ensures Valid()
      ensures if old(argPosn) >= SIZE_MAX then n == None else n == Some(old(argPosn)) && argPosn == old(argPosn) + 1
    {
      if argPosn == SIZE_MAX {
        return None;
      }
      n := Some(argPosn);
      argPosn := argPosn + 1;
    }

    // ----- Fields -----

    /** After an asterisk: the number of its argument, which is an int. */
    method ParseStar(ghost start: nat, ghost star: nat) returns (out: Outcome, n: nat)
      requires Valid() && start <= star && cp == star + 1
      modifies this`cp, this`argPosn, this`arg, this`argCount, arg
      ensures Valid() && (arg == old(arg) || fresh(arg))
      ensures var r := StarAt(format, start, star, old(argPosn), old(Args()));
              && (out == Parsed ==> r == Some(Field(Some(Span(start, star + 1)), Some(n), cp, argPosn, Args())))
              && (out == Error ==> r == None)
    {
      hide PositionAt, Register;
      n := 0;
      var p := ReadPosition();
      match p {
        case Invalid => return Error, 0;
        case Given(index, next) => n := index;
        case Absent =>
          var next := NextIndex();
          if next.None? {
            return Error, 0;
          }
          n := next.value;
      }
      ghost var posn := argPosn;
      out := RegisterArg(n, TypeInt);
    }

    /** "Parse the field width." */
    method ParseWidth() returns (out: Outcome, span: Option<Span>, index: Option<nat>)
      requires Valid()
      modifies this`cp, this`argPosn, this`arg, this`argCount, this`maxWidthLength, arg
      ensures Valid() && (arg == old(arg) || fresh(arg))
      ensures var r := WidthAt(format, old(cp), old(argPosn), old(Args()));
              && (out == Parsed ==> r == Some(Field(span, index, cp, argPosn, Args())))
              && (out == Error ==> r == None)
      ensures out == Parsed ==> maxWidthLength == Longer(old(maxWidthLength), span)
    {
      hide StarAt;
      span, index := None, None;
      if format[cp] == '*' {
        var start := cp;
        cp := cp + 1;
        span := Some(Span(start, cp));
        if maxWidthLength < 1 {
          maxWidthLength := 1;
        }
        var n;
        out, n := ParseStar(start, start);
        index := Some(n);
      } else {
        out := Parsed;
        DigitsThere(format, cp);
        if IsDecimal(format[cp]) {
          var start := cp;
          cp := SkipDigits(cp);
          span := Some(Span(start, cp));
          if maxWidthLength < cp - start {
            maxWidthLength := cp - start;
          }
        }
      }
    }

    /** "Parse the precision." */
    method ParsePrecision() returns (out: Outcome, span: Option<Span>, index: Option<nat>)
      requires Valid()
      modifies this`cp, this`argPosn, this`arg, this`argCount, this`maxPrecisionLength, arg
      ensures Valid() && (arg == old(arg) || fresh(arg))
      ensures var r := PrecisionAt(format, old(cp), old(argPosn), old(Args()));
              && (out == Parsed ==> r == Some(Field(span, index, cp, argPosn, Args())))
              && (out == Error ==> r == None)
      ensures out == Parsed ==> maxPrecisionLength == Longer(old(maxPrecisionLength), span)
    {
      hide StarAt;
      span, index := None, None;
      out := Parsed;
      if format[cp] == '.' {
        cp := cp + 1;
        if format[cp] == '*' {
          var start := cp - 1;
          cp := cp + 1;
          span := Some(Span(start, cp));
          if maxPrecisionLength < 2 {
            maxPrecisionLength := 2;
          }
          var n;
          out, n := ParseStar(start, start + 1);
          index := Some(n);
        } else {
          var start := cp - 1;
          cp := SkipDigits(cp);
          span := Some(Span(start, cp));
          if maxPrecisionLength < cp - start {
            maxPrecisionLength := cp - start;
          }
        }
      }
    }

    /** "Read the flags." */
    method ReadFlags() returns (flags: set<char>)
      requires Valid()
      modifies this`cp
      ensures Valid() && cp == FlagsEnd(format, old(cp)) && flags == Chars(format, old(cp), cp)
    {
      flags := {};
      while IsFlag(format[cp])
        invariant Valid() && old(cp) <= cp && FlagsEnd(format, cp) == FlagsEnd(format, old(cp))
        invariant flags == Chars(format, old(cp), cp)
        decreases |format| - cp
      {
        flags := flags + {format[cp]};
        cp := cp + 1;
      }
    }

    /** "Parse argument type/size specifiers." */
    method ReadSizes() returns (flags: nat)
      requires Valid()
      modifies this`cp
      ensures Valid() && cp == SizesEnd(format, old(cp)) && flags == SizeFlags(format[old(cp)..cp])
    {
      hide WithSize;
      flags := 0;
      assert format[cp..cp] == "" && SizeFlags("") == 0;
      while IsSize(format[cp])
        invariant Valid() && old(cp) <= cp && SizesEnd(format, cp) == SizesEnd(format, old(cp))
        invariant flags == SizeFlags(format[old(cp)..cp])
        decreases |format| - cp
      {
        assert format[old(cp)..cp + 1] == format[old(cp)..cp] + [format[cp]];
        flags := WithSize(flags, format[cp]);
        cp := cp + 1;
      }
    }

    /** The value of a directive, if it has one. */
    method ParseValue(position: Position, t: ArgType) returns (out: Outcome, index: Option<nat>)
      requires Valid() && !position.Invalid? && (position.Given? ==> position.index < SIZE_MAX)
      modifies this`argPosn, this`arg, this`argCount, arg
      ensures Valid() && (arg == old(arg) || fresh(arg))
      ensures var r := ValueOf(position, t, old(argPosn), old(Args()));
              && (out == Parsed ==> r == Some((index, argPosn, Args())))
              && (out == Error ==> r == None)
    {
      hide Register;
      if t == TypeNone {
        return Parsed, None;
      }
      if position.Given? {
        index := Some(position.index);
      } else {
        index := NextIndex();
        if index.None? {
          return Error, None;
        }
      }
      out := RegisterArg(index.value, t);
    }

    // ----- Directives -----

    /** Width and precision. */
    method ParseFields() returns (out: Outcome, width: Option<Span>, widthIndex: Option<nat>,
                                  precision: Option<Span>, precisionIndex: Option<nat>)
      requires Valid()
      modifies this`cp, this`argPosn, this`arg, this`argCount, this`maxWidthLength, this`maxPrecisionLength, arg
      ensures Valid() && (arg == old(arg) || fresh(arg))
      ensures var r := FieldsAt(format, old(cp), old(argPosn), old(Args()));
              && (out == Parsed ==>
                    && r.Some? && r.value.0.span == width && r.value.0.index == widthIndex
                    && r.value.1 == Field(precision, precisionIndex, cp, argPosn, Args()))
              && (out == Error ==> r == None)
      ensures out == Parsed ==> maxWidthLength == Longer(old(maxWidthLength), width)
      ensures out == Parsed ==> maxPrecisionLength == Longer(old(maxPrecisionLength), precision)
    {
      hide WidthAt, PrecisionAt, Longer;
      precision, precisionIndex := None, None;
      out, width, widthIndex := ParseWidth();
      if out != Parsed {
        return;
      }
      out, precision, precisionIndex := ParsePrecision();
    }

    /** Sizes and conversion character. */
    method ParseConversion() returns (conversion: Option<(ArgType, char)>)
      requires Valid()
      modifies this`cp
      ensures Valid()
      ensures var r := ConversionAt(format, old(cp));
              if conversion.None? then r == None
              else cp > 0 && r == Some((cp - 1, conversion.value.0, conversion.value.1))
    {
      hide SizesEnd, SizeFlags, Conversion;
      var size := ReadSizes();
      conversion := Conversion(format[cp], size);
      if conversion.Some? {
        NoConversionAtEnd(size);
        cp := cp + 1;
      }
    }

    /** One directive, from behind its percent sign to behind its conversion character. */
    method ParseDirective() returns (out: Outcome, dp: Directive)
      requires Valid() && cp > 0 && format[cp - 1] == '%'
      modifies this`cp, this`argPosn, this`arg, this`argCount, this`maxWidthLength, this`maxPrecisionLength, arg
      ensures Valid() && (arg == old(arg) || fresh(arg))
      ensures var r := ItemAt(format, old(cp) - 1, old(argPosn), old(Args()));
              && (out == Parsed ==>
                    r.Some? && r.value.d == dp && cp == dp.end && argPosn == r.value.posn && Args() == r.value.args)
              && (out == Error ==> r == None)
      ensures out == Parsed ==> maxWidthLength == Longer(old(maxWidthLength), dp.width)
      ensures out == Parsed ==> maxPrecisionLength == Longer(old(maxPrecisionLength), dp.precision)
    {
      hide PositionAt, FlagsEnd, FieldsAt, ConversionAt, ValueOf, Chars, Longer;
      dp := EMPTY.(start := cp - 1);
      var position := ReadPosition();
      if position.Invalid? {
        return Error, dp;
      }
      var flags := ReadFlags();
      var width, widthIndex, precision, precisionIndex, index;
      out, width, widthIndex, precision, precisionIndex := ParseFields();
      if out != Parsed {
        return;
      }
      var conversion := ParseConversion();
      if conversion.None? {
        return Error, dp;
      }
      out, index := ParseValue(position, conversion.value.0);
      dp := Directive(dp.start, cp, flags, width, widthIndex, precision, precisionIndex, conversion.value.1, index);
    }

    /** d->count++, and the growth behind it: there is always room for one more. */
    method Append(dp: Directive) returns (ok: bool)
      requires Valid()
      modifies this`dir, this`dirCount, dir
      ensures Args() == old(Args()) && (dir == old(dir) || fresh(dir))
      ensures ok ==> Valid() && Dirs() == old(Dirs()) + [dp]
    {
      dir[dirCount] := dp;
      assert arg[..] == old(arg[..]);
      dirCount := dirCount + 1;
      assert Dirs() == old(Dirs()) + [dp];
      ok := true;
      if dirCount >= dir.Length {
        var capacity := Xtimes(dir.Length, 2);
        XtimesSaturates(dir.Length, 2);
        XtimesSaturates(capacity, SIZEOF_DIRECTIVE);
        var memorySize := Xtimes(capacity, SIZEOF_DIRECTIVE);
        if memorySize == SIZE_MAX {
          return false;
        }
        ok := *;
        if ok {
          ghost var before := Dirs();
          var memory := new Directive[capacity](_ => EMPTY);
          forall k | 0 <= k < dirCount {
            memory[k] := dir[k];
          }
          dir := memory;
          assert Dirs() == before;
        }
      }
    }

    /** A directive, read and appended. */
    method NextDirective() returns (out: Outcome)
      requires Valid() && cp > 0 && format[cp - 1] == '%'
      requires maxWidthLength == LongestWidth(Dirs()) && maxPrecisionLength == LongestPrecision(Dirs())
      modifies this, arg, dir
      ensures (arg == old(arg) || fresh(arg)) && (dir == old(dir) || fresh(dir))
      ensures out == Parsed ==> Valid()
      ensures var r := ItemAt(format, old(cp) - 1, old(argPosn), old(Args()));
              && (out == Parsed ==>
                    && r.Some? && cp == r.value.d.end && argPosn == r.value.posn && Args() == r.value.args
                    && Dirs() == old(Dirs()) + [r.value.d]
                    && maxWidthLength == LongestWidth(Dirs()) && maxPrecisionLength == LongestPrecision(Dirs()))
              && (out == Error ==> r == None)
    {
      hide ItemAt, Longer, LongestWidth, LongestPrecision;
      ghost var before := Dirs();
      var dp;
      out, dp := ParseDirective();
      if out != Parsed {
        return;
      }
      assert Dirs() == before;
      LongestOneMore(before, dp);
      var ok := Append(dp);
      if !ok {
        return OutOfMemory;
      }
    }

    /** `printf_parse` */
    method Parse() returns (out: Outcome)
      requires Valid() && cp == 0 && argPosn == 0 && Args() == [] && Dirs() == [] && maxWidthLength == 0
      requires maxPrecisionLength == 0
      modifies this, arg, dir
      ensures out == Parsed ==> Valid() && dir[dirCount].start == |format| - 1
      ensures var items := ItemsFrom(format, 0, 0, []);
              && (out == Parsed ==>
                    items.Some? && Dirs() == Directives(items.value) && Args() == FinalArgs([], items.value))
              && (out == Error ==> items == None)
      ensures out == Parsed ==> maxWidthLength == LongestWidth(Dirs()) && maxPrecisionLength == LongestPrecision(Dirs())
    {
      hide ItemAt, ItemsFrom, Prepend, LongestWidth, LongestPrecision;
      ghost var done: seq<Item> := [];
      assert Directives([]) == [];
      LongestOfNone();
      PrependNothing(ItemsFrom(format, 0, 0, []));
      while format[cp] != NUL
        invariant Valid() && (arg == old(arg) || fresh(arg)) && (dir == old(dir) || fresh(dir))
        invariant Dirs() == Directives(done) && Args() == FinalArgs([], done)
        invariant ItemsFrom(format, 0, 0, []) == Prepend(done, ItemsFrom(format, cp, argPosn, Args()))
        invariant maxWidthLength == LongestWidth(Dirs()) && maxPrecisionLength == LongestPrecision(Dirs())
        decreases |format| - cp
      {
        var c := format[cp];
        ItemsStep(format, cp, argPosn, Args());
        PrependNone(done);
        cp := cp + 1;
        if c == '%' {
          ghost var item := ItemAt(format, cp - 1, argPosn, Args());
          out := NextDirective();
          if out != Parsed {
            return;
          }
          PrependOne(done, item.value, ItemsFrom(format, cp, argPosn, Args()));
          DirectivesOneMore(done, item.value);
          done := done + [item.value];
        }
      }
      ItemsStep(format, cp, argPosn, Args());
      PrependEmpty(done);
      dir[dirCount] := dir[dirCount].(start := cp);
      assert Dirs() == Directives(done) && arg[..] == arg[..];
      out := Parsed;
    }
  }

  /** The items of a longer parse. */
  function Prepend(done: seq<Item>, rest: Option<seq<Item>>): Option<seq<Item>> {
    if rest.Some? then Some(done + rest.value) else None
  }

  lemma DirectivesOneMore(items: seq<Item>, item: Item)
    ensures Directives(items + [item]) == Directives(items) + [item.d]
    ensures FinalArgs([], items + [item]) == item.args
  {
  }

  lemma PrependNothing(rest: Option<seq<Item>>)
    ensures Prepend([], rest) == rest
  {
    if rest.Some? {
      assert [] + rest.value == rest.value;
    }
  }

  lemma PrependEmpty(done: seq<Item>)
    ensures Prepend(done, Some([])) == Some(done)
  {
    assert done + [] == done;
  }

  lemma PrependNone(done: seq<Item>)
    ensures Prepend(done, None) == None
  {
  }

  /** One step of the parse. */
  lemma ItemsStep(s: string, i: nat, posn: nat, args: seq<ArgType>)
    requires Terminated(s) && i < |s|
    ensures s[i] == NUL ==> ItemsFrom(s, i, posn, args) == Some([])
    ensures s[i] != NUL && s[i] != '%' ==> i + 1 < |s| && ItemsFrom(s, i, posn, args) == ItemsFrom(s, i + 1, posn, args)
    ensures s[i] == '%' && ItemAt(s, i, posn, args) == None ==> ItemsFrom(s, i, posn, args) == None
    ensures s[i] == '%' && ItemAt(s, i, posn, args) != None ==>
              var item := ItemAt(s, i, posn, args).value;
              ItemsFrom(s, i, posn, args) == Prepend([item], ItemsFrom(s, item.d.end, item.posn, item.args))
  {
    hide ItemAt;
  }

  lemma PrependOne(done: seq<Item>, item: Item, rest: Option<seq<Item>>)
    ensures Prepend(done, Prepend([item], rest)) == Prepend(done + [item], rest)
  {
    if rest.Some? {
      assert done + ([item] + rest.value) == done + [item] + rest.value;
    }
  }

  // ----- The longest fields -----

  /** The larger of a length and the length of a field. */
  function Longer(length: nat, span: Option<Span>): nat {
    if span.Some? && span.value.end >= span.value.start && length < span.value.end - span.value.start
    then span.value.end - span.value.start else length
  }

  function LongestWidth(ds: seq<Directive>): nat {
    if ds == [] then 0 else Longer(LongestWidth(ds[..|ds| - 1]), ds[|ds| - 1].width)
  }

  function LongestPrecision(ds: seq<Directive>): nat {
    if ds == [] then 0 else Longer(LongestPrecision(ds[..|ds| - 1]), ds[|ds| - 1].precision)
  }

  /** How many characters of the format a field takes: none when it is absent. */
  function Length(span: Option<Span>): nat {
    match span
    case None => 0
    case Some(f) => if f.start <= f.end then f.end - f.start else 0
  }

  /** No width is longer than the longest, and one is as long unless there is none. */
  lemma {:induction false} LongestWidthReached(ds: seq<Directive>)
    ensures forall k :: 0 <= k < |ds| ==> Length(ds[k].width) <= LongestWidth(ds)
    ensures LongestWidth(ds) == 0 || exists k :: 0 <= k < |ds| && Length(ds[k].width) == LongestWidth(ds)
  {
    if ds != [] {
      var n := |ds| - 1;
      LongestWidthReached(ds[..n]);
      assert forall k :: 0 <= k < n ==> ds[..n][k] == ds[k];
      assert LongestWidth(ds) == LongestWidth(ds[..n]) || LongestWidth(ds) == Length(ds[n].width);
    }
  }

  lemma {:induction false} LongestPrecisionReached(ds: seq<Directive>)
    ensures forall k :: 0 <= k < |ds| ==> Length(ds[k].precision) <= LongestPrecision(ds)
    ensures LongestPrecision(ds) == 0
         || exists k :: 0 <= k < |ds| && Length(ds[k].precision) == LongestPrecision(ds)
  {
    if ds != [] {
      var n := |ds| - 1;
      LongestPrecisionReached(ds[..n]);
      assert forall k :: 0 <= k < n ==> ds[..n][k] == ds[k];
      assert LongestPrecision(ds) == LongestPrecision(ds[..n]) || LongestPrecision(ds) == Length(ds[n].precision);
    }
  }

  lemma LongestOfNone()
    ensures LongestWidth([]) == 0 && LongestPrecision([]) == 0
  {
  }

  lemma LongestOneMore(ds: seq<Directive>, d: Directive)
    ensures LongestWidth(ds + [d]) == Longer(LongestWidth(ds), d.width)
    ensures LongestPrecision(ds + [d]) == Longer(LongestPrecision(ds), d.precision)
  {
    assert (ds + [d])[..|ds|] == ds;
  }

  lemma NoConversionAtEnd(flags: nat)
    ensures Conversion(NUL, flags) == None
  {
  }

  const EMPTY: Directive := Directive(0, 0, {}, None, None, None, None, NUL, None)

  lemma DigitsThere(s: string, i: nat)
    requires Terminated(s) && i < |s|
    ensures DigitsEnd(s, i) > i <==> IsDecimal(s[i])
  {
  }
}
