/** The base64 alphabet and encoding of section 4 of RFC 4648, and decoding one group of four characters after
    another, as gl/base64.c defines it. */
module Base64 {
  import opened MachineInts

  /** A value of the alphabet. */
  type Sextet = x: int | 0 <= x < 64

  /** `b64c` */
  const UPPER: string := "ABCDEFGHIJKLMNOPQRSTUVWXYZ"
  const LOWER: string := "abcdefghijklmnopqrstuvwxyz"
  const OTHER: string := "0123456789+/"
  const B64C: string := UPPER + LOWER + OTHER

  function Letter(v: Sextet): char {
    B64C[v]
  }

  /** `b64`: the value of a character of the alphabet, or -1. */
  function B64(c: char): (v: int)
    ensures -1 <= v < 64
  {
    if 'A' <= c <= 'Z' then c as int - 'A' as int
    else if 'a' <= c <= 'z' then c as int - 'a' as int + 26
    else if '0' <= c <= '9' then c as int - '0' as int + 52
    else if c == '+' then 62
    else if c == '/' then 63
    else -1
  }

  /** `isbase64` */
  predicate IsBase64(c: char) {
    0 <= B64(c)
  }

  // ----- Encoding -----

  function Encode(data: seq<Octet>): string {
    if |data| == 0 then ""
    else EncodeGroup(data) + (if |data| <= 3 then "" else Encode(data[3..]))
  }

  /** Four characters for the first three bytes, or with padding for the last one or two. */
  function EncodeGroup(data: seq<Octet>): (s: string)
    requires |data| >= 1
    ensures |s| == 4
  {
    if |data| == 1 then [Letter(data[0] / 4), Letter(data[0] % 4 * 16), '=', '=']
    else if |data| == 2 then
      [Letter(data[0] / 4), Letter(data[0] % 4 * 16 + data[1] / 16), Letter(data[1] % 16 * 4), '=']
    else
      [Letter(data[0] / 4), Letter(data[0] % 4 * 16 + data[1] / 16), Letter(data[1] % 16 * 4 + data[2] / 64),
       Letter(data[2] % 64)]
  }

  /** BASE64_LENGTH */
  function EncodedLength(n: nat): nat {
    (n + 2) / 3 * 4
  }

  lemma {:induction false} EncodeLength(data: seq<Octet>)
    ensures |Encode(data)| == EncodedLength(|data|)
  {
    hide EncodeGroup;
    if |data| > 3 {
      EncodeLength(data[3..]);
      DivUnique(|data| + 2, 3, (|data| - 1) / 3 + 1, (|data| - 1) % 3);
    }
  }

  // ----- Decoding -----

  function Byte0(c0: char, c1: char): Octet
    requires IsBase64(c0) && IsBase64(c1)
  {
    B64(c0) * 4 + B64(c1) / 16
  }

  function Byte1(c1: char, c2: char): Octet
    requires IsBase64(c1) && IsBase64(c2)
  {
    B64(c1) % 16 * 16 + B64(c2) / 4
  }

  function Byte2(c2: char, c3: char): Octet
    requires IsBase64(c2) && IsBase64(c3)
  {
    B64(c2) % 4 * 64 + B64(c3)
  }

  /** What decoding yields: the bytes, the verdict, and the characters left over at the end of the text. */
  datatype Outcome = Outcome(bytes: seq<Octet>, ok: bool, rest: string)

  /** One group of four characters. A group that fails may still have given its first one or two bytes. */
  function DecodeGroup(q: string): (r: Outcome)
    requires |q| == 4
    ensures |r.bytes| <= 3 && (r.ok ==> |r.bytes| >= 1)
  {
    if !IsBase64(q[0]) || !IsBase64(q[1]) then Outcome([], false, "")
    else
      var b0 := Byte0(q[0], q[1]);
      if q[2] == '=' then Outcome([b0], q[3] == '=', "")
      else if !IsBase64(q[2]) then Outcome([b0], false, "")
      else
        var b1 := Byte1(q[1], q[2]);
        if q[3] == '=' then Outcome([b0, b1], true, "")
        else if !IsBase64(q[3]) then Outcome([b0, b1], false, "")
        else Outcome([b0, b1, Byte2(q[2], q[3])], true, "")
  }

  /** A text without newlines, group by group, up to the first group that fails; fewer than four characters at
      the end are left over. Padding does not end the text: another group may follow. */
  function DecodeGroups(text: string): Outcome {
    if |text| < 4 then Outcome([], true, text)
    else
      var g := DecodeGroup(text[..4]);
      if !g.ok then Outcome(g.bytes, false, "")
      else Prepend(g.bytes, DecodeGroups(text[4..]))
  }

  function Prepend(bytes: seq<Octet>, r: Outcome): Outcome {
    Outcome(bytes + r.bytes, r.ok, r.rest)
  }

  /** The text without its newlines. */
  function Strip(text: string): string {
    if text == "" then "" else Visible(text[0]) + Strip(text[1..])
  }

  function Visible(c: char): string {
    if c == '\n' then "" else [c]
  }

  // ----- Lemmas on texts -----

  lemma {:induction false} StripAppend(a: string, b: string)
    ensures Strip(a + b) == Strip(a) + Strip(b)
  {
    hide Visible;
    if a == "" {
      assert a + b == b;
    } else {
      StripAppend(a[1..], b);
      assert (a + b)[1..] == a[1..] + b;
      Regrouped(Visible(a[0]), Strip(a[1..]), Strip(b));
    }
  }

  lemma Regrouped(a: string, b: string, c: string)
    ensures a + (b + c) == a + b + c
  {
  }

  lemma {:induction false} StripKeeps(a: string)
    requires '\n' !in a
    ensures Strip(a) == a
  {
    if a != "" {
      StripKeeps(a[1..]);
    }
  }

  lemma {:induction false} StripShortens(a: string)
    ensures |Strip(a)| <= |a|
  {
    if a != "" {
      StripShortens(a[1..]);
    }
  }

  /** Decoding can be interrupted anywhere: go on with what was left over. */
  lemma {:induction false} DecodeGroupsAppend(a: string, b: string)
    ensures DecodeGroups(a).ok ==>
              DecodeGroups(a + b) == Prepend(DecodeGroups(a).bytes, DecodeGroups(DecodeGroups(a).rest + b))
    ensures !DecodeGroups(a).ok ==> DecodeGroups(a + b) == DecodeGroups(a)
  {
    hide DecodeGroup;
    if |a| >= 4 {
      assert (a + b)[..4] == a[..4] && (a + b)[4..] == a[4..] + b;
      DecodeGroupsAppend(a[4..], b);
      var bytes := DecodeGroup(a[..4]).bytes;
      var tail := DecodeGroups(a[4..]);
      PrependTwice(bytes, tail.bytes, DecodeGroups(tail.rest + b));
    }
  }

  lemma PrependTwice(a: seq<Octet>, b: seq<Octet>, r: Outcome)
    ensures Prepend(a, Prepend(b, r)) == Prepend(a + b, r)
  {
    assert a + (b + r.bytes) == a + b + r.bytes;
  }

  lemma {:induction false} DecodeGroupsRest(text: string)
    ensures DecodeGroups(text).ok ==> |DecodeGroups(text).rest| < 4
    ensures |DecodeGroups(text).bytes| <= 3 * (|text| / 4)
  {
    hide DecodeGroup;
    if |text| >= 4 {
      DecodeGroupsRest(text[4..]);
      var g := DecodeGroup(text[..4]);
      assert |g.bytes| <= 3 && (g.ok ==> |DecodeGroups(text).bytes| == |g.bytes| + |DecodeGroups(text[4..]).bytes|);
    }
  }

  // ----- Round trip -----

  lemma UpperInOrder(v: nat)
    requires v < 26
    ensures |UPPER| == 26 && UPPER[v] as int == 'A' as int + v
  {
  }

  lemma LowerInOrder(v: nat)
    requires v < 26
    ensures |LOWER| == 26 && LOWER[v] as int == 'a' as int + v
  {
  }

  lemma OtherInOrder(v: nat)
    requires v < 12
    ensures |OTHER| == 12
    ensures if v < 10 then OTHER[v] as int == '0' as int + v else OTHER[v] == if v == 10 then '+' else '/'
  {
  }

  lemma LetterCode(v: Sextet)
    ensures Letter(v) as int == if v < 26 then 65 + v else if v < 52 then 71 + v else if v < 62 then v - 4
                                else if v == 62 then 43 else 47
  {
    hide UPPER, LOWER, OTHER;
    UpperInOrder(if v < 26 then v else 0);
    LowerInOrder(if 26 <= v < 52 then v - 26 else 0);
    OtherInOrder(if 52 <= v then v - 52 else 0);
  }

  lemma LetterHasValue(v: Sextet)
    ensures B64(Letter(v)) == v && Letter(v) != '=' && Letter(v) != '\n'
  {
    hide Letter;
    LetterCode(v);
  }

  lemma LetterRoundTrip(a: Octet, b: Octet, c: Octet)
    ensures B64(Letter(a / 4)) == a / 4 && B64(Letter(a % 4 * 16)) == a % 4 * 16
    ensures B64(Letter(a % 4 * 16 + b / 16)) == a % 4 * 16 + b / 16 && B64(Letter(b % 16 * 4)) == b % 16 * 4
    ensures B64(Letter(b % 16 * 4 + c / 64)) == b % 16 * 4 + c / 64 && B64(Letter(c % 64)) == c % 64
  {
    hide Letter, B64;
    LetterHasValue(a / 4);
    LetterHasValue(a % 4 * 16);
    LetterHasValue(a % 4 * 16 + b / 16);
    LetterHasValue(b % 16 * 4);
    LetterHasValue(b % 16 * 4 + c / 64);
    LetterHasValue(c % 64);
  }

  lemma EncodeGroupDecodes(data: seq<Octet>)
    requires |data| >= 1
    ensures DecodeGroup(EncodeGroup(data)) == Outcome(if |data| <= 3 then data else data[..3], true, "")
    ensures '\n' !in EncodeGroup(data)
  {
    hide Letter, B64;
    forall v: Sextet
      ensures Letter(v) != '=' && Letter(v) != '\n'
    {
      LetterHasValue(v);
    }
    var a := data[0];
    var b := if |data| >= 2 then data[1] else 0;
    var c := if |data| >= 3 then data[2] else 0;
    LetterRoundTrip(a, b, c);
    FieldsOfBytes(a, b, c);
  }

  lemma FieldsOfBytes(a: Octet, b: Octet, c: Octet)
    ensures a / 4 * 4 + (a % 4 * 16 + b / 16) / 16 == a
    ensures a / 4 * 4 + (a % 4 * 16) / 16 == a
    ensures (a % 4 * 16 + b / 16) % 16 * 16 + (b % 16 * 4 + c / 64) / 4 == b
    ensures (a % 4 * 16 + b / 16) % 16 * 16 + (b % 16 * 4) / 4 == b
    ensures (b % 16 * 4 + c / 64) % 4 * 64 + c % 64 == c
  {
  }

  /** Decoding the encoding of any byte string gives it back. */
  lemma {:induction false} DecodeEncode(data: seq<Octet>)
    ensures DecodeGroups(Encode(data)) == Outcome(data, true, "")
    ensures '\n' !in Encode(data)
  {
    hide EncodeGroup, DecodeGroup;
    if |data| > 0 {
      EncodeGroupDecodes(data);
      var s := Encode(data);
      assert s[..4] == EncodeGroup(data);
      if |data| <= 3 {
        assert s[4..] == "";
      } else {
        assert s[4..] == Encode(data[3..]);
        DecodeEncode(data[3..]);
      }
    }
  }
}
