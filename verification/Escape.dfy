/** db/fileutil.c: names as file names. */
module Escape {

  /** A character of C, as an unsigned byte. */
  predicate IsByte(c: char) { c as int < 256 }

  /** A C string: bytes other than NUL. */
  predicate IsCString(s: string) {
    forall i :: 0 <= i < |s| ==> IsByte(s[i]) && s[i] != '\0'
  }

  /** Characters that stand for themselves. */
  predicate Plain(c: char) {
    'a' <= c <= 'z' || 'A' <= c <= 'Z' || '0' <= c <= '9' || c == '-' || c == '.'
  }

  function High(c: char): nat
    requires IsByte(c)
  {
    c as nat / 16
  }

  function Low(c: char): nat {
    c as nat % 16
  }

  /** i > 10 ? 'a' + i - 10 : '0' + i -- ten becomes a colon. */
  function HexDigit(i: nat): (c: char)
    requires i < 16
  {
    if i > 10 then ('a' as nat + i - 10) as char else ('0' as nat + i) as char
  }

  function EscapeChar(c: char): (e: string)
    requires IsByte(c)
    ensures 1 <= |e| <= 3
  {
    if Plain(c) then [c] else ['%', HexDigit(High(c)), HexDigit(Low(c))]
  }

  /** What escape_filename returns. */
  function Escaped(s: string): (e: string)
    requires IsCString(s)
    ensures |s| <= |e| <= 3 * |s|
  {
    if s == "" then "" else EscapeChar(s[0]) + Escaped(s[1..])
  }

  lemma {:induction false} EscapedAppend(s: string, t: string)
    requires IsCString(s) && IsCString(t)
    ensures IsCString(s + t) && Escaped(s + t) == Escaped(s) + Escaped(t)
    decreases |s|
  {
    hide EscapeChar;
    if s == "" {
      assert s + t == t;
    } else {
      assert (s + t)[0] == s[0] && (s + t)[1..] == s[1..] + t;
      EscapedAppend(s[1..], t);
      assert EscapeChar(s[0]) + (Escaped(s[1..]) + Escaped(t)) == EscapeChar(s[0]) + Escaped(s[1..]) + Escaped(t);
    }
  }

  lemma EscapedOne(c: char)
    requires IsByte(c) && c != '\0'
    ensures IsCString([c]) && Escaped([c]) == EscapeChar(c)
  {
    hide EscapeChar;
    assert [c][1..] == "";
  }

  // ----- The escapes, as text -----

  const LETTERS: string := "abcdefghijklmnopqrstuvwxyz"
  const CAPITALS: string := "ABCDEFGHIJKLMNOPQRSTUVWXYZ"
  const OTHERS: string := "0123456789-."

  /** The digits that are written: as usual, except for ten. */
  const DIGITS: string := "0123456789:bcdef"

  /** A letter, a decimal digit, a minus sign or a dot stands for itself, and nothing else does. */
  lemma PlainExactly(c: char)
    ensures Plain(c) <==> c in LETTERS || c in CAPITALS || c in OTHERS
  {
    hide LETTERS, CAPITALS, OTHERS;
    LettersExactly(c);
    CapitalsExactly(c);
    OthersExactly(c);
  }

  lemma LettersExactly(c: char)
    ensures c in LETTERS <==> 'a' <= c <= 'z'
  {
    if 'a' <= c <= 'z' {
      Letter(c as int - 'a' as int);
      assert LETTERS[c as int - 'a' as int] == c;
    }
    if c in LETTERS {
      var i :| 0 <= i < |LETTERS| && LETTERS[i] == c;
      Letter(i);
    }
  }

  lemma CapitalsExactly(c: char)
    ensures c in CAPITALS <==> 'A' <= c <= 'Z'
  {
    if 'A' <= c <= 'Z' {
      Capital(c as int - 'A' as int);
      assert CAPITALS[c as int - 'A' as int] == c;
    }
    if c in CAPITALS {
      var i :| 0 <= i < |CAPITALS| && CAPITALS[i] == c;
      Capital(i);
    }
  }

  lemma OthersExactly(c: char)
    ensures c in OTHERS <==> '0' <= c <= '9' || c == '-' || c == '.'
  {
    if '0' <= c <= '9' {
      assert OTHERS[c as int - '0' as int] == c;
    }
    assert OTHERS[10] == '-' && OTHERS[11] == '.';
  }

  lemma Letter(i: nat)
    requires i < 26
    ensures |LETTERS| == 26 && LETTERS[i] as int == 'a' as int + i
  {
  }

  lemma Capital(i: nat)
    requires i < 26
    ensures |CAPITALS| == 26 && CAPITALS[i] as int == 'A' as int + i
  {
  }

  /** Any other byte is a percent sign and its two digits. */
  lemma EscapeText(c: char)
    requires IsByte(c)
    ensures EscapeChar(c) == if Plain(c) then [c] else ['%', DIGITS[c as nat / 16], DIGITS[c as nat % 16]]
  {
    hide Plain, HexDigit;
    DigitText(c as nat / 16);
    DigitText(c as nat % 16);
  }

  lemma DigitText(i: nat)
    requires i < 16
    ensures HexDigit(i) == DIGITS[i]
  {
  }

  // ----- Different names have different file names -----

  lemma HexDigitInjective(i: nat, j: nat)
    requires i < 16 && j < 16 && HexDigit(i) == HexDigit(j)
    ensures i == j
  {
  }

  /** Characters whose escapes begin the same way are the same. */
  lemma EscapeCharInjective(c: char, d: char, s: string, t: string)
    requires IsByte(c) && IsByte(d) && EscapeChar(c) + s == EscapeChar(d) + t
    ensures c == d && s == t
  {
    hide HexDigit;
    var u, v := EscapeChar(c) + s, EscapeChar(d) + t;
    assert u[0] == EscapeChar(c)[0] && v[0] == EscapeChar(d)[0];
    if !Plain(c) {
      assert u[1] == HexDigit(High(c)) && u[2] == HexDigit(Low(c));
      assert v[1] == HexDigit(High(d)) && v[2] == HexDigit(Low(d));
      HexDigitInjective(High(c), High(d));
      HexDigitInjective(Low(c), Low(d));
      assert s == u[3..] && t == v[3..];
    } else {
      assert s == u[1..] && t == v[1..];
    }
  }

  lemma {:induction false} EscapedInjective(s: string, t: string)
    requires IsCString(s) && IsCString(t) && Escaped(s) == Escaped(t)
    ensures s == t
    decreases |s|
  {
    hide EscapeChar;
    if s != "" && t != "" {
      EscapeCharInjective(s[0], t[0], Escaped(s[1..]), Escaped(t[1..]));
      EscapedInjective(s[1..], t[1..]);
      assert s == [s[0]] + s[1..] && t == [t[0]] + t[1..];
    }
  }

  /** A name that a directory can have: not empty, and neither the directory itself nor its parent. */
  predicate GoodName(s: string) {
    IsCString(s) && s != "" && s != "." && s != ".."
  }

  /** The file name of a good name is one path component, and again neither "." nor "..". */
  lemma EscapedIsComponent(s: string)
    requires IsCString(s)
    ensures '/' !in Escaped(s) && '\0' !in Escaped(s)
    ensures GoodName(s) ==> Escaped(s) != "" && Escaped(s) != "." && Escaped(s) != ".."
  {
    EscapedLacks(s);
    if Escaped(s) == "." {
      EscapedDots(".", s);
    } else if Escaped(s) == ".." {
      EscapedDots("..", s);
    }
  }

  lemma EscapedDots(dots: string, s: string)
    requires dots == "." || dots == ".."
    requires IsCString(s) && Escaped(s) == dots
    ensures s == dots
  {
    assert ".."[1..] == "." && "."[1..] == "";
    EscapedInjective(s, dots);
  }

  lemma {:induction false} EscapedLacks(s: string)
    requires IsCString(s)
    ensures '/' !in Escaped(s) && '\0' !in Escaped(s)
    decreases |s|
  {
    if s != "" {
      EscapedLacks(s[1..]);
      EscapeCharLacks(s[0]);
    }
  }

  lemma EscapeCharLacks(c: char)
    requires IsByte(c)
    ensures '/' !in EscapeChar(c) && '\0' !in EscapeChar(c)
  {
  }

  // ----- Reading names back -----

  /** A character as an int; char is signed. */
  function Signed(c: char): (x: int)
    ensures IsByte(c) ==> -128 <= x < 128 && (x - c as int) % 256 == 0
  {
    if c as int < 128 then c as int else c as int - 256
  }

  /** c - '0' > 9 ? c - 'a' + 10 : c - '0' */
  function DigitOf(c: char): int {
    var d := Signed(c) - '0' as int;
    if d > 9 then Signed(c) - 'a' as int + 10 else d
  }

  function OrNibble(x: nat, y: nat): (z: nat)
    requires x < 16 && y < 16
    ensures z < 16
  {
    (x as bv4 | y as bv4) as nat
  }

  /** The low eight bits of (x << 4) | y. */
  function JoinDigits(x: int, y: int): char {
    var a, b := x * 16 % 256, y % 256;
    (16 * OrNibble(a / 16, b / 16) + OrNibble(a % 16, b % 16)) as char
  }

  /** What unescape_filename returns; its test for hexadecimal digits is always true. */
  function Unescaped(s: string): (u: string)
    ensures |u| <= |s|
  {
    if s == "" then ""
    else if |s| >= 3 && s[0] == '%' then [JoinDigits(DigitOf(s[1]), DigitOf(s[2]))] + Unescaped(s[3..])
    else [s[0]] + Unescaped(s[1..])
  }

  /** The character is written so that it can be read back: no digit of its escape is ten. */
  predicate Reversible(c: char)
    requires IsByte(c)
  {
    Plain(c) || (High(c) != 10 && Low(c) != 10)
  }

  lemma OrNibbleFacts(x: nat)
    requires x < 16
    ensures OrNibble(0, x) == x && OrNibble(x, 0) == x
  {
  }

  lemma DigitOfHexDigit(i: nat)
    requires i < 16
    ensures DigitOf(HexDigit(i)) == if i == 10 then -29 else i
  {
  }

  /** Four bits, and four bits moved up by four. */
  lemma NibbleParts(x: nat)
    requires x < 16
    ensures x % 256 == x && x / 16 == 0 && x % 16 == x
    ensures x * 16 % 256 == x * 16 && x * 16 / 16 == x && x * 16 % 16 == 0
  {
  }

  lemma JoinGood(h: nat, l: nat)
    requires h < 16 && l < 16
    ensures JoinDigits(h, l) == (16 * h + l) as char
  {
    hide OrNibble;
    OrNibbleFacts(h);
    OrNibbleFacts(l);
    NibbleParts(h);
    NibbleParts(l);
  }

  /** A ten among the digits always spoils the character. */
  lemma JoinBad(h: nat, l: nat)
    requires h < 16 && l < 16 && (h == 10 || l == 10)
    ensures JoinDigits(if h == 10 then -29 else h, if l == 10 then -29 else l) != (16 * h + l) as char
  {
    hide OrNibble;
    OrNibbleFacts(3);
    OrNibbleFacts(h);
    OrNibbleFacts(l);
    NibbleParts(h);
    NibbleParts(l);
    var x := if h == 10 then -29 else h;
    assert x * 16 % 256 == if h == 10 then 48 else 16 * h;
    if l == 10 {
      assert -29 % 256 == 227 && x * 16 % 256 % 16 == 0;
      assert JoinDigits(x, -29) as nat % 16 == 3;
    } else {
      assert JoinDigits(x, l) as nat / 16 == 3;
    }
  }

  lemma UnescapeChar(c: char)
    requires IsByte(c) && !Plain(c)
    ensures JoinDigits(DigitOf(HexDigit(High(c))), DigitOf(HexDigit(Low(c)))) == c <==> Reversible(c)
  {
    hide JoinDigits, HexDigit, DigitOf;
    DigitOfHexDigit(High(c));
    DigitOfHexDigit(Low(c));
    assert c as nat == 16 * High(c) + Low(c);
    if Reversible(c) {
      JoinGood(High(c), Low(c));
    } else {
      JoinBad(High(c), Low(c));
    }
  }

  lemma UnescapedHead(c: char, rest: string)
    requires IsByte(c)
    ensures |Unescaped(EscapeChar(c) + rest)| >= 1
    ensures Unescaped(EscapeChar(c) + rest)[1..] == Unescaped(rest)
    ensures Unescaped(EscapeChar(c) + rest)[0] == c <==> Reversible(c)
  {
    hide JoinDigits, HexDigit, DigitOf;
    var s := EscapeChar(c) + rest;
    if Plain(c) {
      assert s[0] == c && s[1..] == rest;
    } else {
      UnescapeChar(c);
      assert s[0] == '%' && s[1] == HexDigit(High(c)) && s[2] == HexDigit(Low(c)) && s[3..] == rest;
    }
  }

  /** Reading an escaped name gives the name back exactly when no escaped byte has a digit ten. */
  lemma {:induction false} UnescapedEscaped(s: string)
    requires IsCString(s)
    ensures Unescaped(Escaped(s)) == s <==> forall i :: 0 <= i < |s| ==> Reversible(s[i])
    decreases |s|
  {
    hide EscapeChar, Reversible, Unescaped;
    if s == "" {
      assert Unescaped("") == "" by { UnescapedNothing(); }
    } else {
      var rest := Escaped(s[1..]);
      UnescapedEscaped(s[1..]);
      UnescapedHead(s[0], rest);
      var u := Unescaped(EscapeChar(s[0]) + rest);
      assert u == [u[0]] + u[1..] && s == [s[0]] + s[1..];
      assert forall i :: 0 <= i < |s[1..]| ==> s[1..][i] == s[i + 1];
      if forall i :: 0 <= i < |s[1..]| ==> Reversible(s[1..][i]) {
        assert forall i :: 1 <= i < |s| ==> Reversible(s[i]) by {
          forall i | 1 <= i < |s|
            ensures Reversible(s[i])
          {
            assert s[1..][i - 1] == s[i];
          }
        }
      }
    }
  }

  lemma UnescapedNothing()
    ensures Unescaped("") == ""
  {
  }

  /** A file name without a percent sign is read as it is. */
  lemma {:induction false} UnescapedPlain(s: string)
    requires '%' !in s
    ensures Unescaped(s) == s
    decreases |s|
  {
    if s != "" {
      UnescapedPlain(s[1..]);
      assert s == [s[0]] + s[1..];
    }
  }

  // ----- The loops -----

  /** `escape_filename` */
  method EscapeFilename(path: string) returns (out: array<char>, len: nat)
    requires IsCString(path)
    ensures fresh(out) && len < out.Length == 3 * |path| + 1
    ensures out[..len] == Escaped(path) && out[len] == '\0'
  {
    hide Escaped, HexDigit;
    out := new char[|path| * 3 + 1];
    len := 0;
    assert path[..0] == "" && Escaped("") == "" by { EscapedNothing(); }
    for n := 0 to |path|
      invariant len <= 3 * n && out[..len] == Escaped(path[..n])
    {
      assert path[..n + 1] == path[..n] + [path[n]];
      EscapedAppend(path[..n], [path[n]]);
      EscapedOne(path[n]);
      ghost var sofar := out[..len];
      if Plain(path[n]) {
        out[len] := path[n];
        len := len + 1;
      } else {
        out[len] := '%';
        out[len + 1] := HexDigit(High(path[n]));
        out[len + 2] := HexDigit(Low(path[n]));
        len := len + 3;
      }
      assert out[..len] == sofar + EscapeChar(path[n]);
    }
    assert path[..|path|] == path;
    out[len] := '\0';
  }

  lemma EscapedNothing()
    ensures Escaped("") == ""
  {
  }

  /** `unescape_filename`, in the copy that strdup makes; the end of the name is a NUL. */
  method UnescapeFilename(path: string) returns (out: array<char>, len: nat)
    ensures fresh(out) && len < out.Length == |path| + 1
    ensures out[..len] == Unescaped(path) && out[len] == '\0'
  {
    hide Unescaped, JoinDigits, DigitOf;
    out := new char[|path| + 1];
    len := 0;
    var n := 0;
    while n < |path|
      invariant len <= n <= |path| && out[..len] + Unescaped(path[n..]) == Unescaped(path)
    {
      ghost var sofar := out[..len];
      UnescapedStep(path[n..]);
      if path[n] == '%' && n + 2 < |path| {
        out[len] := JoinDigits(DigitOf(path[n + 1]), DigitOf(path[n + 2]));
        len, n := len + 1, n + 3;
      } else {
        out[len] := path[n];
        len, n := len + 1, n + 1;
      }
      assert out[..len] == sofar + [out[len - 1]];
      Move(sofar, out[len - 1], Unescaped(path[n..]));
    }
    UnescapedNothing();
    assert path[n..] == "" && out[..len] + "" == out[..len];
    out[len] := '\0';
  }

  lemma Move(sofar: string, c: char, rest: string)
    ensures sofar + [c] + rest == sofar + ([c] + rest)
  {
  }

  lemma UnescapedStep(s: string)
    requires s != ""
    ensures |s| >= 3 && s[0] == '%' ==>
              Unescaped(s) == [JoinDigits(DigitOf(s[1]), DigitOf(s[2]))] + Unescaped(s[3..])
    ensures !(|s| >= 3 && s[0] == '%') ==> Unescaped(s) == [s[0]] + Unescaped(s[1..])
  {
  }
}
