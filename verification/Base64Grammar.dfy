/** Which texts gl/base64.c decodes, and to which numbers, said through the alphabet of section 4 of RFC 4648 alone. */
module Base64Grammar {
  import opened MachineInts
  import opened Base64
  import opened Base64Decode

  // ----- The alphabet -----

  ghost predicate InAlphabet(c: char) {
    exists v: Sextet :: Letter(v) == c
  }

  /** The table has a value for exactly the characters of the alphabet, and no character of it stands for two values. */
  lemma AlphabetExactly(c: char)
    ensures IsBase64(c) <==> InAlphabet(c)
    ensures forall v: Sextet :: Letter(v) == c ==> B64(c) == v
    ensures InAlphabet(c) ==> c != '=' && c != '\n'
  {
    hide Letter;
    if IsBase64(c) {
      var v: Sextet := B64(c);
      LetterCode(v);
      assert Letter(v) == c;
    }
    forall v: Sextet | Letter(v) == c
      ensures B64(c) == v && c != '=' && c != '\n'
    {
      LetterHasValue(v);
    }
  }

  // ----- Groups -----

  ghost predicate FourLetters(q: string) {
    |q| == 4 && InAlphabet(q[0]) && InAlphabet(q[1]) && InAlphabet(q[2]) && InAlphabet(q[3])
  }

  /** Four letters, or three and one sign of padding, or two and two. */
  ghost predicate IsGroup(q: string) {
    || FourLetters(q)
    || (|q| == 4 && InAlphabet(q[0]) && InAlphabet(q[1]) && InAlphabet(q[2]) && q[3] == '=')
    || (|q| == 4 && InAlphabet(q[0]) && InAlphabet(q[1]) && q[2..] == "==")
  }

  /** Exactly such groups are accepted. */
  lemma GroupAccepted(q: string)
    requires |q| == 4
    ensures DecodeGroup(q).ok <==> IsGroup(q)
  {
    hide InAlphabet, B64, Byte0, Byte1, Byte2;
    AlphabetExactly(q[0]);
    AlphabetExactly(q[1]);
    AlphabetExactly(q[2]);
    AlphabetExactly(q[3]);
    assert q[2..] == [q[2], q[3]];
  }

  /** The value of a character of the alphabet, and -1 for any other. */
  ghost function Code(c: char): (v: int)
    ensures -1 <= v < 64
  {
    if InAlphabet(c) then
      var v: Sextet :| Letter(v) == c;
      v
    else -1
  }

  lemma CodeIsB64(c: char)
    ensures Code(c) == B64(c)
  {
    hide B64, Letter;
    AlphabetExactly(c);
  }

  /** These are the whole bytes of what the letters before the first other character stand for, six bits for each. */
  ghost predicate AreBytesOf(bytes: seq<Octet>, v0: int, v1: int, v2: int, v3: int) {
    if v0 < 0 || v1 < 0 then bytes == []
    else if v2 < 0 then |bytes| == 1 && bytes[0] == (64 * v0 + v1) / 16
    else if v3 < 0 then |bytes| == 2 && 256 * bytes[0] as int + bytes[1] as int == (4096 * v0 + 64 * v1 + v2) / 4
    else
      && |bytes| == 3
      && 65536 * bytes[0] as int + 256 * bytes[1] as int + bytes[2] as int == 262144 * v0 + 4096 * v1 + 64 * v2 + v3
  }

  /** So are the bytes that a group yields, whether it is accepted or not. */
  lemma GroupMeaning(q: string)
    requires |q| == 4
    ensures AreBytesOf(DecodeGroup(q).bytes, Code(q[0]), Code(q[1]), Code(q[2]), Code(q[3]))
  {
    hide B64, Code, Byte0, Byte1, Byte2, DecodeGroup;
    GroupBytes(q);
    CodeIsB64(q[0]);
    CodeIsB64(q[1]);
    CodeIsB64(q[2]);
    CodeIsB64(q[3]);
    if IsBase64(q[0]) && IsBase64(q[1]) {
      FirstByte(q[0], q[1]);
      if IsBase64(q[2]) {
        SecondByte(q[0], q[1], q[2]);
        if IsBase64(q[3]) {
          ThirdByte(q[0], q[1], q[2], q[3]);
        }
      }
    }
  }

  lemma GroupBytes(q: string)
    requires |q| == 4
    ensures DecodeGroup(q).bytes
         == if !IsBase64(q[0]) || !IsBase64(q[1]) then []
            else if !IsBase64(q[2]) then [Byte0(q[0], q[1])]
            else if !IsBase64(q[3]) then [Byte0(q[0], q[1]), Byte1(q[1], q[2])]
            else [Byte0(q[0], q[1]), Byte1(q[1], q[2]), Byte2(q[2], q[3])]
  {
    hide B64, Byte0, Byte1, Byte2;
    AlphabetExactly('=');
  }

  lemma FirstByte(c0: char, c1: char)
    requires IsBase64(c0) && IsBase64(c1)
    ensures Byte0(c0, c1) == (64 * B64(c0) + B64(c1)) / 16
  {
    hide B64;
  }

  lemma SecondByte(c0: char, c1: char, c2: char)
    requires IsBase64(c0) && IsBase64(c1) && IsBase64(c2)
    ensures 256 * Byte0(c0, c1) + Byte1(c1, c2) == (4096 * B64(c0) + 64 * B64(c1) + B64(c2)) / 4
  {
    hide B64;
  }

  lemma ThirdByte(c0: char, c1: char, c2: char, c3: char)
    requires IsBase64(c0) && IsBase64(c1) && IsBase64(c2) && IsBase64(c3)
    ensures 65536 * Byte0(c0, c1) + 256 * Byte1(c1, c2) + Byte2(c2, c3)
         == 262144 * B64(c0) + 4096 * B64(c1) + 64 * B64(c2) + B64(c3)
  {
    hide B64;
  }

  /** The letters of an encoded group stand for its bytes, filled up with zero bits; the rest is padding. */
  lemma EncodingMeaning(data: seq<Octet>)
    requires |data| >= 1
    ensures var s := EncodeGroup(data);
            var v0, v1, v2, v3 := Code(s[0]), Code(s[1]), Code(s[2]), Code(s[3]);
            if |data| == 1 then 64 * v0 + v1 == 16 * data[0] as int && s[2..] == "=="
            else if |data| == 2 then 4096 * v0 + 64 * v1 + v2 == 4 * (256 * data[0] as int + data[1] as int)
                                    && s[3] == '='
            else 262144 * v0 + 4096 * v1 + 64 * v2 + v3
                 == 65536 * data[0] as int + 256 * data[1] as int + data[2] as int
  {
    hide Letter, B64, Code;
    var s := EncodeGroup(data);
    var a := data[0];
    var b := if |data| >= 2 then data[1] else 0;
    var c := if |data| >= 3 then data[2] else 0;
    LetterRoundTrip(a, b, c);
    CodeIsB64(s[0]);
    CodeIsB64(s[1]);
    CodeIsB64(s[2]);
    CodeIsB64(s[3]);
    FieldsOfNumber(a, b, c);
  }

  lemma FieldsOfNumber(a: Octet, b: Octet, c: Octet)
    ensures 262144 * (a / 4) + 4096 * (a % 4 * 16 + b / 16) + 64 * (b % 16 * 4 + c / 64) + c % 64
         == 65536 * a as int + 256 * b as int + c as int
    ensures 4096 * (a / 4) + 64 * (a % 4 * 16 + b / 16) + b % 16 * 4 == 4 * (256 * a as int + b as int)
    ensures 64 * (a / 4) + a % 4 * 16 == 16 * a as int
  {
  }

  // ----- Texts -----

  /** The group number k of a text. */
  function GroupAt(text: string, k: nat): string
    requires 4 * k + 4 <= |text|
  {
    text[4 * k..4 * k + 4]
  }

  /** All groups of four characters are groups; up to three characters may be left over. */
  ghost predicate AllGroups(text: string) {
    forall k: nat :: 4 * k + 4 <= |text| ==> IsGroup(GroupAt(text, k))
  }

  lemma FirstGroup(text: string)
    requires |text| >= 4
    ensures GroupAt(text, 0) == text[..4]
  {
  }

  lemma GroupOfTail(text: string, k: nat)
    requires 4 * k + 8 <= |text|
    ensures GroupAt(text, k + 1) == GroupAt(text[4..], k)
  {
    var i := 4 * k;
    assert text[4..][i..i + 4] == text[i + 4..i + 8];
  }

  lemma AllGroupsStep(text: string)
    requires |text| >= 4
    ensures AllGroups(text) <==> IsGroup(text[..4]) && AllGroups(text[4..])
  {
    hide IsGroup, GroupAt;
    var tail := text[4..];
    assert GroupAt(text, 0) == text[..4] by { FirstGroup(text); }
    forall k: nat | 4 * k + 4 <= |tail|
      ensures GroupAt(text, k + 1) == GroupAt(tail, k)
    {
      GroupOfTail(text, k);
    }
    if IsGroup(text[..4]) && AllGroups(tail) {
      forall k: nat | 4 * k + 4 <= |text|
        ensures IsGroup(GroupAt(text, k))
      {
        if k > 0 {
          assert GroupAt(text, k) == GroupAt(tail, k - 1);
        }
      }
    }
  }

  /** With a context, a text without newlines is accepted exactly if all its groups are groups. */
  lemma {:induction false} TextAccepted(text: string)
    ensures DecodeGroups(text).ok <==> AllGroups(text)
    ensures DecodeGroups(text).ok ==> DecodeGroups(text).rest == text[|text| / 4 * 4..]
    decreases |text|
  {
    hide IsGroup, DecodeGroup, AllGroups;
    if |text| < 4 {
      assert AllGroups(text) by { NoGroups(text); }
    } else {
      GroupAccepted(text[..4]);
      AllGroupsStep(text);
      TextAccepted(text[4..]);
      assert text[4..][|text[4..]| / 4 * 4..] == text[|text| / 4 * 4..];
    }
  }

  lemma NoGroups(text: string)
    requires |text| < 4
    ensures AllGroups(text)
  {
  }

  /** Whole groups, of letters except for the last one, which may be padded. */
  ghost predicate IsUnit(t: string)
    decreases |t|
  {
    t == "" || IsGroup(t) || (|t| > 4 && FourLetters(t[..4]) && IsUnit(t[4..]))
  }

  /** That is: the length is a multiple of four, each group but the last is all letters, and the last is a group. */
  lemma {:induction false} UnitGroups(t: string)
    ensures IsUnit(t) <==>
              && |t| % 4 == 0
              && (forall k: nat :: 4 * k + 4 < |t| ==> FourLetters(GroupAt(t, k)))
              && (forall k: nat :: 4 * k + 4 == |t| ==> IsGroup(GroupAt(t, k)))
    decreases |t|
  {
    hide FourLetters, IsGroup, GroupAt;
    GroupLength(t);
    if |t| >= 4 {
      FirstGroup(t);
    }
    if |t| > 4 {
      var tail := t[4..];
      UnitGroups(tail);
      forall k: nat | 4 * k + 4 <= |tail|
        ensures GroupAt(t, k + 1) == GroupAt(tail, k)
      {
        GroupOfTail(t, k);
      }
      forall k: nat | 4 * k + 4 <= |t| && k > 0
        ensures GroupAt(t, k) == GroupAt(tail, k - 1)
      {
        GroupOfTail(t, k - 1);
      }
    } else if |t| == 4 {
      assert t[..4] == t;
    }
  }

  lemma GroupLength(t: string)
    ensures IsGroup(t) ==> |t| == 4
  {
  }

  /** Without a context exactly those texts are accepted. */
  lemma {:induction false} UnitAccepted(t: string)
    ensures DecodeUnit(t).ok <==> IsUnit(t)
    decreases |t|
  {
    hide InAlphabet;
    if t != "" {
      FirstAccepted(t);
      hide IsGroup, FourLetters, DecodeFirst;
      if DecodeFirst(t).ok {
        UnitAccepted(t[4..]);
      }
      GroupLength(t);
    }
  }

  /** The first group, when it must be the last one if it is padded. */
  lemma FirstAccepted(t: string)
    requires t != ""
    ensures DecodeFirst(t).ok <==> IsGroup(t) || (|t| > 4 && FourLetters(t[..4]))
    ensures IsGroup(t) ==> |t| == 4
    ensures DecodeFirst(t).ok ==> |t| >= 4
  {
    hide InAlphabet, B64, Byte0, Byte1, Byte2;
    if |t| >= 4 {
      AlphabetExactly(t[0]);
      AlphabetExactly(t[1]);
      AlphabetExactly(t[2]);
      AlphabetExactly(t[3]);
      assert t[2..4] == [t[2], t[3]];
      assert |t| == 4 ==> t[2..] == t[2..4];
    }
  }

  // ----- Calls -----

  /** The verdict of a call, in each of its modes: without a context, with an empty input, and with any other. */
  lemma CallAccepted(hasCtx: bool, flush: bool, pending: string, t: string)
    requires |pending| < 4
    ensures DecodeCall(hasCtx, flush, pending, t).ok <==>
              if !hasCtx then IsUnit(t) else if flush then pending == "" else AllGroups(pending + Strip(t))
  {
    hide DecodeUnit, IsUnit, DecodeGroups, AllGroups;
    UnitAccepted(t);
    TextAccepted(pending + Strip(t));
  }
}
