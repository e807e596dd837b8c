/** gl/printf-parse.c: what a format string means, as one function of the string. */
module PrintfSpec {
  import opened MachineInts
  import opened Numerals

  const NUL: char := '\0'

  /** A C string with its terminator. */
  predicate Terminated(s: string) {
    |s| > 0 && s[|s| - 1] == NUL && forall i :: 0 <= i < |s| - 1 ==> s[i] != NUL
  }

  /** arg_type, where long long and the wide characters exist */
  datatype ArgType =
    | TypeNone | TypeSchar | TypeUchar | TypeShort | TypeUshort | TypeInt | TypeUint | TypeLongint | TypeUlongint
    | TypeLonglongint | TypeUlonglongint | TypeDouble | TypeLongdouble | TypeChar | TypeWideChar | TypeString
    | TypeWideString | TypePointer | TypeCountScharPointer | TypeCountShortPointer | TypeCountIntPointer
    | TypeCountLongintPointer | TypeCountLonglongintPointer

  /** The part of the string from start up to end. */
  datatype Span = Span(start: nat, end: nat)

  /** DIRECTIVE, positions being indices into the format; the flags by their characters, and no index for ARG_NONE. */
  datatype Directive = Directive(start: nat, end: nat, flags: set<char>, width: Option<Span>, widthIndex: Option<nat>,
                                 precision: Option<Span>, precisionIndex: Option<nat>, conversion: char,
                                 index: Option<nat>)

  // ----- Numbers and positions -----

  /** *np >= '0' && *np <= '9' */
  predicate IsDecimal(c: char)
    ensures IsDecimal(c) <==> c in "0123456789"
  {
    '0' <= c <= '9'
  }

  /** Where the digits from i on end. */
  function DigitsEnd(s: string, i: nat): (j: nat)
    requires Terminated(s) && i < |s|
    ensures i <= j < |s| && !IsDecimal(s[j]) && forall k :: i <= k < j ==> IsDecimal(s[k])
    decreases |s| - i
  {
    if IsDecimal(s[i]) then DigitsEnd(s, i + 1) else i
  }

  lemma DecimalsAreDigits(t: string)
    requires forall k :: 0 <= k < |t| ==> IsDecimal(t[k])
    ensures AllDigits(t, 10)
  {
  }

  function Number(t: string): nat
    requires forall k :: 0 <= k < |t| ==> IsDecimal(t[k])
  {
    DecimalsAreDigits(t);
    Value(t, 10)
  }

  /** What stands at a place where a number and a dollar sign may be. */
  datatype Position = Absent | Invalid | Given(index: nat, next: nat)

  /** n$ counts from one; zero and what does not fit a size are errors. */
  function PositionAt(s: string, i: nat): (p: Position)
    requires Terminated(s) && i < |s|
    ensures p.Given? ==> i < p.next < |s| && p.index < SIZE_MAX - 1
  {
    var j := DigitsEnd(s, i);
    if j > i && s[j] == '$' then
      var n := Number(s[i..j]);
      if n == 0 || n >= SIZE_MAX then Invalid else Given(n - 1, j + 1)
    else Absent
  }

  /** The argument that is meant: the given one, or the next one in order. */
  function IndexAt(s: string, i: nat, posn: nat): (r: Option<(nat, nat, nat)>)
    requires Terminated(s) && i < |s|
    ensures r.Some? ==> r.value.0 < SIZE_MAX && i <= r.value.1 < |s|
  {
    match PositionAt(s, i)
    case Invalid => None
    case Given(n, next) => Some((n, next, posn))
    case Absent => if posn >= SIZE_MAX then None else Some((posn, i, posn + 1))
  }

  // ----- Types of arguments -----

  function Nones(n: nat): (r: seq<ArgType>)
    ensures |r| == n && forall k :: 0 <= k < n ==> r[k] == TypeNone
  {
    seq(n, _ => TypeNone)
  }

  /** As many arguments as needed for number n. */
  function Extended(args: seq<ArgType>, n: nat): (r: seq<ArgType>)
    ensures n < |r| && |args| <= |r| && (n < |args| ==> r == args)
    ensures forall k :: 0 <= k < |args| ==> r[k] == args[k]
    ensures forall k :: |args| <= k < |r| ==> r[k] == TypeNone
  {
    if n < |args| then args else args + Nones(n + 1 - |args|)
  }

  /** REGISTER_ARG: argument n has this type; None if it already has another one. */
  function Register(args: seq<ArgType>, n: nat, t: ArgType): (r: Option<seq<ArgType>>) {
    var more := Extended(args, n);
    if more[n] == TypeNone then Some(more[n := t])
    else if more[n] == t then Some(more)
    else None
  }

  // ----- The parts of a directive -----

  predicate IsFlag(c: char)
    ensures IsFlag(c) <==> c in "'-+ #0I"
  {
    c == '\'' || c == '-' || c == '+' || c == ' ' || c == '#' || c == '0' || c == 'I'
  }

  function FlagsEnd(s: string, i: nat): (j: nat)
    requires Terminated(s) && i < |s|
    ensures i <= j < |s| && !IsFlag(s[j]) && forall k :: i <= k < j ==> IsFlag(s[k])
    decreases |s| - i
  {
    if IsFlag(s[i]) then FlagsEnd(s, i + 1) else i
  }

  /** The characters of a part. */
  function Chars(s: string, i: nat, j: nat): set<char>
    requires i <= j <= |s|
  {
    set k | i <= k < j :: s[k]
  }

  /** Width or precision: where it is, its argument, where the text goes on, and what has become of the arguments. */
  datatype Field = Field(span: Option<Span>, index: Option<nat>, next: nat, posn: nat, args: seq<ArgType>)

  /** An asterisk at i, belonging to a field that starts at `start`. */
  function StarAt(s: string, start: nat, i: nat, posn: nat, args: seq<ArgType>): (r: Option<Field>)
    requires Terminated(s) && start <= i < |s| - 1
    ensures r.Some? ==> i < r.value.next < |s|
  {
    var (n, next, posn') :- IndexAt(s, i + 1, posn);
    var args' :- Register(args, n, TypeInt);
    Some(Field(Some(Span(start, i + 1)), Some(n), next, posn', args'))
  }

  function WidthAt(s: string, i: nat, posn: nat, args: seq<ArgType>): (r: Option<Field>)
    requires Terminated(s) && i < |s|
    ensures r.Some? ==> i <= r.value.next < |s|
  {
    if s[i] == '*' then StarAt(s, i, i, posn, args)
    else
      var j := DigitsEnd(s, i);
      Some(Field(if j > i then Some(Span(i, j)) else None, None, j, posn, args))
  }

  function PrecisionAt(s: string, i: nat, posn: nat, args: seq<ArgType>): (r: Option<Field>)
    requires Terminated(s) && i < |s|
    ensures r.Some? ==> i <= r.value.next < |s|
  {
    if s[i] != '.' then Some(Field(None, None, i, posn, args))
    else if s[i + 1] == '*' then StarAt(s, i, i + 1, posn, args)
    else
      var j := DigitsEnd(s, i + 1);
      Some(Field(Some(Span(i, j)), None, j, posn, args))
  }

  // The size flags are an int; with 64-bit long, j, z, Z and t count as l.

  predicate IsSize(c: char)
    ensures IsSize(c) <==> c in "hLljzZt"
  {
    c == 'h' || c == 'L' || c == 'l' || c == 'j' || c == 'z' || c == 'Z' || c == 't'
  }

  function Bit(flags: nat, weight: nat): bool
    requires weight > 0
  {
    flags / weight % 2 == 1
  }

  /** flags | weight */
  function WithBit(flags: nat, weight: nat): nat
    requires weight > 0
  {
    if Bit(flags, weight) then flags else flags + weight
  }

  function WithSize(flags: nat, c: char): nat {
    if c == 'h' then WithBit(flags, if Bit(flags, 1) then 2 else 1)
    else if c == 'L' then WithBit(flags, 4)
    else flags + 8
  }

  function SizesEnd(s: string, i: nat): (j: nat)
    requires Terminated(s) && i < |s|
    ensures i <= j < |s| && !IsSize(s[j]) && forall k :: i <= k < j ==> IsSize(s[k])
    decreases |s| - i
  {
    if IsSize(s[i]) then SizesEnd(s, i + 1) else i
  }

  /** The flags after these size characters. */
  function SizeFlags(t: string): nat {
    if t == "" then 0 else WithSize(SizeFlags(t[..|t| - 1]), t[|t| - 1])
  }

  /** The type that a conversion character stands for after such sizes, and the character itself, C and S normalized. */
  function Conversion(c: char, flags: nat): Option<(ArgType, char)> {
    match c
    case 'd' | 'i' =>
      Some((if flags >= 16 || Bit(flags, 4) then TypeLonglongint else if flags >= 8 then TypeLongint
            else if Bit(flags, 2) then TypeSchar else if Bit(flags, 1) then TypeShort else TypeInt, c))
    case 'o' | 'u' | 'x' | 'X' =>
      Some((if flags >= 16 || Bit(flags, 4) then TypeUlonglongint else if flags >= 8 then TypeUlongint
            else if Bit(flags, 2) then TypeUchar else if Bit(flags, 1) then TypeUshort else TypeUint, c))
    case 'f' | 'F' | 'e' | 'E' | 'g' | 'G' | 'a' | 'A' =>
      Some((if flags >= 16 || Bit(flags, 4) then TypeLongdouble else TypeDouble, c))
    case 'c' => Some((if flags >= 8 then TypeWideChar else TypeChar, c))
    case 'C' => Some((TypeWideChar, 'c'))
    case 's' => Some((if flags >= 8 then TypeWideString else TypeString, c))
    case 'S' => Some((TypeWideString, 's'))
    case 'p' => Some((TypePointer, c))
    case 'n' =>
      Some((if flags >= 16 || Bit(flags, 4) then TypeCountLonglongintPointer
            else if flags >= 8 then TypeCountLongintPointer
            else if Bit(flags, 2) then TypeCountScharPointer else if Bit(flags, 1) then TypeCountShortPointer
            else TypeCountIntPointer, c))
    case '%' => Some((TypeNone, c))
    case _ => None
  }

  /** Where the value of a directive comes from: nowhere for %%, else the argument given before, or the next one. */
  function ValueOf(position: Position, t: ArgType, posn: nat, args: seq<ArgType>)
      : (r: Option<(Option<nat>, nat, seq<ArgType>)>)
    requires !position.Invalid?
  {
    if t == TypeNone then Some((None, posn, args))
    else
      var (n, posn') :- if position.Given? then Some((position.index, posn))
                        else if posn >= SIZE_MAX then None else Some((posn, posn + 1));
      var args' :- Register(args, n, t);
      Some((Some(n), posn', args'))
  }

  /** Where the parts of a directive begin, and the number of arguments taken in order before precision and value. */
  datatype Parts = Parts(flags: nat, width: nat, precision: nat, sizes: nat, precisionPosn: nat, valuePosn: nat)

  /** A directive, the type of its value, and how parsing goes on after it. */
  datatype Item = Item(d: Directive, parts: Parts, typ: ArgType, posn: nat, args: seq<ArgType>)

  /** Width and precision. */
  function FieldsAt(s: string, i: nat, posn: nat, args: seq<ArgType>): (r: Option<(Field, Field)>)
    requires Terminated(s) && i < |s|
    ensures r.Some? ==> i <= r.value.0.next <= r.value.1.next < |s|
  {
    var width :- WidthAt(s, i, posn, args);
    var precision :- PrecisionAt(s, width.next, width.posn, width.args);
    Some((width, precision))
  }

  /** Sizes and conversion character: its place, the type and the normalized character. */
  function ConversionAt(s: string, i: nat): (r: Option<(nat, ArgType, char)>)
    requires Terminated(s) && i < |s|
    ensures r.Some? ==> i <= r.value.0 < |s| - 1
    ensures r.Some? ==> Conversion(s[r.value.0], SizeFlags(s[i..r.value.0])) == Some((r.value.1, r.value.2))
  {
    var e := SizesEnd(s, i);
    var conversion :- Conversion(s[e], SizeFlags(s[i..e]));
    Some((e, conversion.0, conversion.1))
  }

  /** Where the flags begin. */
  function AfterPosition(i: nat, position: Position): nat {
    if position.Given? then position.next else i + 1
  }

  /** The directive whose percent sign is at i. */
  function ItemAt(s: string, i: nat, posn: nat, args: seq<ArgType>): (r: Option<Item>)
    requires Terminated(s) && i < |s| && s[i] == '%'
    ensures r.Some? ==> r.value.d.start == i < r.value.d.end < |s|
  {
    var position := PositionAt(s, i + 1);
    if position.Invalid? then None
    else
      var f := AfterPosition(i, position);
      var g := FlagsEnd(s, f);
      var (width, precision) :- FieldsAt(s, g, posn, args);
      var (e, t, c) :- ConversionAt(s, precision.next);
      var (index, posn', args') :- ValueOf(position, t, precision.posn, precision.args);
      Some(Item(Directive(i, e + 1, Chars(s, f, g), width.span, width.index, precision.span, precision.index, c, index),
                Parts(f, g, width.next, precision.next, width.posn, precision.posn), t, posn', args'))
  }

  /** All directives from i on, with the arguments registered before. */
  function ItemsFrom(s: string, i: nat, posn: nat, args: seq<ArgType>): (r: Option<seq<Item>>)
    requires Terminated(s) && i < |s|
    decreases |s| - i
  {
    if s[i] == NUL then Some([])
    else if s[i] == '%' then
      var item :- ItemAt(s, i, posn, args);
      var rest :- ItemsFrom(s, item.d.end, item.posn, item.args);
      Some([item] + rest)
    else ItemsFrom(s, i + 1, posn, args)
  }

  /** The arguments after the last of these directives. */
  function FinalArgs(args: seq<ArgType>, items: seq<Item>): seq<ArgType> {
    if items == [] then args else items[|items| - 1].args
  }

  function Directives(items: seq<Item>): (ds: seq<Directive>)
    ensures |ds| == |items| && forall k :: 0 <= k < |ds| ==> ds[k] == items[k].d
  {
    seq(|items|, k requires 0 <= k < |items| => items[k].d)
  }

  // ----- Every parse: order -----

  /** From i on the directives follow one another, with no percent sign between them. */
  ghost predicate InOrder(s: string, i: nat, items: seq<Item>)
    requires Terminated(s)
    decreases |items|
  {
    if items == [] then i < |s| && '%' !in s[i..]
    else
      var d := items[0].d;
      && i <= d.start < d.end < |s| && s[d.start] == '%' && '%' !in s[i..d.start]
      && InOrder(s, d.end, items[1..])
  }

  lemma NoPercentBefore(s: string, i: nat, j: nat)
    requires i < j <= |s| && s[i] != '%' && '%' !in s[i + 1..j]
    ensures '%' !in s[i..j]
  {
    assert s[i..j] == [s[i]] + s[i + 1..j];
  }

  lemma {:induction false} ParsedInOrder(s: string, i: nat, posn: nat, args: seq<ArgType>)
    requires Terminated(s) && i < |s| && ItemsFrom(s, i, posn, args).Some?
    ensures InOrder(s, i, ItemsFrom(s, i, posn, args).value)
    decreases |s| - i
  {
    hide ItemAt;
    if s[i] == NUL {
      assert s[i..] == [NUL];
    } else if s[i] == '%' {
      var item := ItemAt(s, i, posn, args).value;
      ParsedInOrder(s, item.d.end, item.posn, item.args);
      var items := ItemsFrom(s, i, posn, args).value;
      assert items[1..] == ItemsFrom(s, item.d.end, item.posn, item.args).value;
      assert s[i..i] == "";
    } else {
      ParsedInOrder(s, i + 1, posn, args);
      var items := ItemsFrom(s, i, posn, args).value;
      NoPercentBefore(s, i, if items == [] then |s| else items[0].d.start);
    }
  }

  // ----- Every parse: types of arguments -----

  /** The arguments known so far stay as they are, except that missing types are filled in. */
  predicate Grows(args: seq<ArgType>, args': seq<ArgType>) {
    |args| <= |args'| && forall k :: 0 <= k < |args| && args[k] != TypeNone ==> args'[k] == args[k]
  }

  /** An index leads to a slot of this type. */
  predicate Slot(args: seq<ArgType>, index: Option<nat>, t: ArgType) {
    index.Some? ==> index.value < |args| && args[index.value] == t
  }

  /** All indices of a directive lead to slots of the right types; only %% has no value. */
  predicate Typed(item: Item, args: seq<ArgType>) {
    && Slot(args, item.d.widthIndex, TypeInt)
    && Slot(args, item.d.precisionIndex, TypeInt)
    && Slot(args, item.d.index, item.typ)
    && (item.d.index == None <==> item.typ == TypeNone)
  }

  lemma RegisterGrows(args: seq<ArgType>, n: nat, t: ArgType)
    requires Register(args, n, t).Some?
    ensures Grows(args, Register(args, n, t).value) && Slot(Register(args, n, t).value, Some(n), t)
  {
  }

  lemma StarGrows(s: string, start: nat, i: nat, posn: nat, args: seq<ArgType>)
    requires Terminated(s) && start <= i < |s| - 1 && StarAt(s, start, i, posn, args).Some?
    ensures var f := StarAt(s, start, i, posn, args).value; Grows(args, f.args) && Slot(f.args, f.index, TypeInt)
  {
    hide IndexAt, Register;
    RegisterGrows(args, IndexAt(s, i + 1, posn).value.0, TypeInt);
  }

  lemma WidthGrows(s: string, i: nat, posn: nat, args: seq<ArgType>)
    requires Terminated(s) && i < |s| && WidthAt(s, i, posn, args).Some?
    ensures var f := WidthAt(s, i, posn, args).value; Grows(args, f.args) && Slot(f.args, f.index, TypeInt)
  {
    hide StarAt;
    if s[i] == '*' {
      StarGrows(s, i, i, posn, args);
    }
  }

  lemma PrecisionGrows(s: string, i: nat, posn: nat, args: seq<ArgType>)
    requires Terminated(s) && i < |s| && PrecisionAt(s, i, posn, args).Some?
    ensures var f := PrecisionAt(s, i, posn, args).value; Grows(args, f.args) && Slot(f.args, f.index, TypeInt)
  {
    hide StarAt;
    if s[i] == '.' && s[i + 1] == '*' {
      StarGrows(s, i, i + 1, posn, args);
    }
  }

  lemma ValueGrows(position: Position, t: ArgType, posn: nat, args: seq<ArgType>)
    requires !position.Invalid? && ValueOf(position, t, posn, args).Some?
    ensures var (index, _, args') := ValueOf(position, t, posn, args).value;
            Grows(args, args') && Slot(args', index, t) && (index == None <==> t == TypeNone)
  {
    hide Register;
    if t != TypeNone {
      RegisterGrows(args, if position.Given? then position.index else posn, t);
    }
  }

  lemma SlotStays(args: seq<ArgType>, args': seq<ArgType>, index: Option<nat>, t: ArgType)
    requires Grows(args, args') && Slot(args, index, t) && (t != TypeNone || index == None)
    ensures Slot(args', index, t)
  {
  }

  lemma GrowsOn(a: seq<ArgType>, b: seq<ArgType>, c: seq<ArgType>)
    requires Grows(a, b) && Grows(b, c)
    ensures Grows(a, c)
  {
  }

  lemma ItemTyped(s: string, i: nat, posn: nat, args: seq<ArgType>)
    requires Terminated(s) && i < |s| && s[i] == '%' && ItemAt(s, i, posn, args).Some?
    ensures var item := ItemAt(s, i, posn, args).value; Grows(args, item.args) && Typed(item, item.args)
  {
    hide PositionAt, FlagsEnd, WidthAt, PrecisionAt, ConversionAt, ValueOf, Chars, Grows, Slot;
    var position := PositionAt(s, i + 1);
    var g := FlagsEnd(s, AfterPosition(i, position));
    var (width, precision) := FieldsAt(s, g, posn, args).value;
    var t := ConversionAt(s, precision.next).value.1;
    var v := ValueOf(position, t, precision.posn, precision.args).value;
    WidthGrows(s, g, posn, args);
    PrecisionGrows(s, width.next, width.posn, width.args);
    ValueGrows(position, t, precision.posn, precision.args);
    GrowsOn(args, width.args, precision.args);
    GrowsOn(args, precision.args, v.2);
    GrowsOn(width.args, precision.args, v.2);
    SlotStays(width.args, v.2, width.index, TypeInt);
    SlotStays(precision.args, v.2, precision.index, TypeInt);
  }

  lemma TypedStays(item: Item, args: seq<ArgType>, args': seq<ArgType>)
    requires Typed(item, args) && Grows(args, args')
    ensures Typed(item, args')
  {
    hide Grows, Slot;
    SlotStays(args, args', item.d.widthIndex, TypeInt);
    SlotStays(args, args', item.d.precisionIndex, TypeInt);
    SlotStays(args, args', item.d.index, item.typ);
  }

  /** In the end every index of every directive is below the count of arguments, and its slot has its type. */
  lemma {:induction false} ParsedTyped(s: string, i: nat, posn: nat, args: seq<ArgType>)
    requires Terminated(s) && i < |s| && ItemsFrom(s, i, posn, args).Some?
    ensures var items := ItemsFrom(s, i, posn, args).value;
            && Grows(args, FinalArgs(args, items))
            && forall k :: 0 <= k < |items| ==> Typed(items[k], FinalArgs(args, items))
    decreases |s| - i
  {
    hide ItemAt, Grows, Typed;
    if s[i] == NUL {
      GrowsSelf(args);
    } else if s[i] == '%' {
      var item := ItemAt(s, i, posn, args).value;
      var rest := ItemsFrom(s, item.d.end, item.posn, item.args).value;
      var items := ItemsFrom(s, i, posn, args).value;
      ItemTyped(s, i, posn, args);
      ParsedTyped(s, item.d.end, item.posn, item.args);
      assert items == [item] + rest;
      assert FinalArgs(args, items) == FinalArgs(item.args, rest);
      GrowsOn(args, item.args, FinalArgs(args, items));
      TypedStays(item, item.args, FinalArgs(args, items));
    } else {
      ParsedTyped(s, i + 1, posn, args);
    }
  }

  lemma GrowsSelf(args: seq<ArgType>)
    ensures Grows(args, args)
  {
  }
}
