/** db/file.c: the files in which single keys are kept. */
module KeyFile {
  import opened MachineInts
  import opened Numerals
  import opened Strings

  /** A string that ends at its first NUL. */
  type CString = s: string | '\0' !in s

  /** The bytes of a buffer up to the first NUL. */
  function UpToNul(s: string): CString {
    if s == "" || s[0] == '\0' then "" else [s[0]] + UpToNul(s[1..])
  }

  lemma {:induction false} NothingCut(s: CString)
    ensures UpToNul(s) == s
    decreases |s|
  {
    if s != "" {
      NothingCut(s[1..]);
    }
  }

  /** Shisa_key; the password is a pointer to a string, or NULL. */
  datatype ShisaKey = ShisaKey(kvno: UInt32, etype: Int32, priority: Int32,
                               key: string, salt: string, str2keyparam: string, password: Option<CString>)
  {
    /** The key as it is read back: neither the version number nor an empty password is stored. */
    function Stored(): ShisaKey {
      this.(kvno := 0, password := if password == Some("") then None else password)
    }

    /** The characters of the password that go into the file. */
    function PasswordText(): CString {
      if password.Some? then password.value else ""
    }
  }

  /** memset (&tmpkey, 0, sizeof (tmpkey)) */
  const NO_KEY := ShisaKey(0, 0, 0, "", "", "", None)

  /** What %u makes of an int. */
  function AsUnsigned(x: Int32): UInt32 { x % TWO_32 }

  function Spaced(n: nat): string { Numeral(n, 10) + " " }

  /** fprintf (fh, "%u %zu %zu %zu %zu %u\n", ...) */
  function Header(k: ShisaKey): string {
    Spaced(AsUnsigned(k.etype)) + (Spaced(|k.key|) + (Spaced(|k.salt|) + (Spaced(|k.str2keyparam|)
      + (Spaced(|k.PasswordText()|) + (Numeral(AsUnsigned(k.priority), 10) + "\n")))))
  }

  /** The content of the file of a key. */
  function Encoded(k: ShisaKey): string {
    Header(k) + (k.key + (k.salt + (k.str2keyparam + k.PasswordText())))
  }

  /** White space: space, horizontal tab, newline, vertical tab, form feed, carriage return. */
  lemma SpacesExactly(c: char)
    ensures IsSpace(c) <==> c as int in {32, 9, 10, 11, 12, 13}
  {
  }

  /** The text of a key file: six numbers with spaces between them, a newline, and the four parts of the key. */
  lemma EncodedText(k: ShisaKey)
    ensures Encoded(k)
         == Join([Numeral(AsUnsigned(k.etype), 10), Numeral(|k.key|, 10), Numeral(|k.salt|, 10),
                  Numeral(|k.str2keyparam|, 10), Numeral(|k.PasswordText()|, 10),
                  Numeral(AsUnsigned(k.priority), 10)], ' ')
            + "\n" + k.key + k.salt + k.str2keyparam + k.PasswordText()
  {
    hide Numeral;
    JoinSix(Numeral(AsUnsigned(k.etype), 10), Numeral(|k.key|, 10), Numeral(|k.salt|, 10),
            Numeral(|k.str2keyparam|, 10), Numeral(|k.PasswordText()|, 10), Numeral(AsUnsigned(k.priority), 10));
  }

  lemma JoinSix(a: string, b: string, c: string, d: string, e: string, f: string)
    ensures Join([a, b, c, d, e, f], ' ') == (a + " ") + ((b + " ") + ((c + " ") + ((d + " ") + ((e + " ") + f))))
  {
    var s := [a, b, c, d, e, f];
    assert s[1..] == [b, c, d, e, f] && s[1..][1..] == [c, d, e, f] && s[1..][1..][1..] == [d, e, f];
    assert s[1..][1..][1..][1..] == [e, f] && [e, f][1..] == [f];
    assert Join([e, f], ' ') == e + " " + f;
    assert Join([d, e, f], ' ') == d + " " + Join([e, f], ' ');
    assert Join([c, d, e, f], ' ') == c + " " + Join([d, e, f], ' ');
    assert Join([b, c, d, e, f], ' ') == b + " " + Join([c, d, e, f], ' ');
  }

  // ----- Scanning -----

  predicate IsSpace(c: char) {
    c == ' ' || '\t' <= c <= '\r'
  }

  function SkipSpaces(s: string): string {
    if s != "" && IsSpace(s[0]) then SkipSpaces(s[1..]) else s
  }

  /** How many characters from the beginning on are decimal digits. */
  function LeadingDigits(s: string): (n: nat)
    ensures n <= |s| && AllDigits(s[..n], 10)
  {
    if s != "" && IsDigit(s[0], 10) then 1 + LeadingDigits(s[1..]) else 0
  }

  /** %u and %zu: a number, after any white space, and the rest of the text. */
  function ScanUnsigned(s: string): Option<(nat, string)> {
    var t := SkipSpaces(s);
    var n := LeadingDigits(t);
    if n == 0 then None else Some((Value(t[..n], 10), t[n..]))
  }

  datatype HeaderFields = HeaderFields(etype: nat, keylen: nat, saltlen: nat, str2keyparamlen: nat, passwdlen: nat,
                                       priority: nat, rest: string)

  /** The numbers, the last of which may be missing; if it is there, a newline must follow. */
  function ParseHeader(s: string): Option<HeaderFields> {
    var (etype, s1) :- ScanUnsigned(s);
    var (keylen, s2) :- ScanUnsigned(s1);
    var (saltlen, s3) :- ScanUnsigned(s2);
    var (str2keyparamlen, s4) :- ScanUnsigned(s3);
    var (passwdlen, s5) :- ScanUnsigned(s4);
    match ScanUnsigned(s5)
    case None => Some(HeaderFields(etype, keylen, saltlen, str2keyparamlen, passwdlen, 0, SkipSpaces(s5)))
    case Some((priority, s6)) =>
      if s6 != "" && s6[0] == '\n'
      then Some(HeaderFields(etype, keylen, saltlen, str2keyparamlen, passwdlen, priority, s6[1..]))
      else None
  }

  /** fread of n bytes. */
  function Take(s: string, n: nat): Option<(string, string)> {
    if n <= |s| then Some((s[..n], s[n..])) else None
  }

  /** A password of length zero is left NULL. */
  function PasswordRead(s: string): Option<CString> {
    if s == "" then None else Some(UpToNul(s))
  }

  /** The key in a file, if it is one. */
  function ParseKey(s: string): Option<ShisaKey> {
    var h :- ParseHeader(s);
    var (key, s1) :- Take(h.rest, h.keylen);
    var (salt, s2) :- Take(s1, h.saltlen);
    var (str2keyparam, s3) :- Take(s2, h.str2keyparamlen);
    var (password, s4) :- Take(s3, h.passwdlen);
    Some(ShisaKey(0, Wrap32(h.etype), Wrap32(h.priority), key, salt, str2keyparam, PasswordRead(password)))
  }

  // ----- The round trip -----

  lemma {:induction false} DigitsThenOther(s: string, t: string)
    requires AllDigits(s, 10) && (t == "" || !IsDigit(t[0], 10))
    ensures LeadingDigits(s + t) == |s|
    decreases |s|
  {
    if s == "" {
      assert s + t == t;
    } else {
      assert (s + t)[0] == s[0] && (s + t)[1..] == s[1..] + t;
      DigitsThenOther(s[1..], t);
    }
  }

  lemma NoSpaceFirst(s: string)
    requires s != "" && !IsSpace(s[0])
    ensures SkipSpaces(s) == s && SkipSpaces(" " + s) == s
  {
    assert (" " + s)[1..] == s;
  }

  lemma DigitIsNoSpace(c: char)
    requires IsDigit(c, 10)
    ensures !IsSpace(c)
  {
  }

  /** A numeral is scanned up to the next character that is no digit. */
  lemma ScanNumeral(n: nat, t: string)
    requires t == "" || !IsDigit(t[0], 10)
    ensures ScanUnsigned(Numeral(n, 10) + t) == Some((n, t))
    ensures ScanUnsigned(" " + (Numeral(n, 10) + t)) == Some((n, t))
  {
    hide Numeral, Value, SkipSpaces, LeadingDigits, IsSpace, IsDigit;
    var d := Numeral(n, 10);
    ValueOfNumeral(n, 10);
    DigitsThenOther(d, t);
    DigitIsNoSpace(d[0]);
    assert (d + t)[0] == d[0] && (d + t)[..|d|] == d && (d + t)[|d|..] == t;
    NoSpaceFirst(d + t);
  }

  /** Between two numbers. */
  lemma ScanSpaced(n: nat, t: string)
    ensures ScanUnsigned(Spaced(n) + t) == Some((n, " " + t))
    ensures ScanUnsigned(" " + (Spaced(n) + t)) == Some((n, " " + t))
  {
    hide ScanUnsigned, Numeral;
    ScanNumeral(n, " " + t);
    assert Numeral(n, 10) + (" " + t) == Spaced(n) + t;
  }

  lemma ScanLast(n: nat, t: string)
    ensures ScanUnsigned(" " + (Numeral(n, 10) + ("\n" + t))) == Some((n, "\n" + t))
  {
    hide ScanUnsigned, Numeral;
    ScanNumeral(n, "\n" + t);
  }

  lemma HeaderParsed(k: ShisaKey, t: string)
    ensures ParseHeader(Header(k) + t)
         == Some(HeaderFields(AsUnsigned(k.etype), |k.key|, |k.salt|, |k.str2keyparam|, |k.PasswordText()|,
                              AsUnsigned(k.priority), t))
  {
    hide ScanUnsigned, Spaced, Numeral, AsUnsigned;
    var last := Numeral(AsUnsigned(k.priority), 10) + ("\n" + t);
    var t5 := Spaced(|k.PasswordText()|) + last;
    var t4 := Spaced(|k.str2keyparam|) + t5;
    var t3 := Spaced(|k.salt|) + t4;
    var t2 := Spaced(|k.key|) + t3;
    assert Header(k) + t == Spaced(AsUnsigned(k.etype)) + t2;
    ScanSpaced(AsUnsigned(k.etype), t2);
    ScanSpaced(|k.key|, t3);
    ScanSpaced(|k.salt|, t4);
    ScanSpaced(|k.str2keyparam|, t5);
    ScanSpaced(|k.PasswordText()|, last);
    ScanLast(AsUnsigned(k.priority), t);
    assert ("\n" + t)[1..] == t;
  }

  lemma Taken(s: string, t: string)
    ensures Take(s + t, |s|) == Some((s, t))
  {
  }

  lemma WrapUnsigned(x: Int32)
    ensures Wrap32(AsUnsigned(x)) == x
  {
  }

  /** What becomes of a password: an empty one comes back as none. */
  lemma PasswordBack(k: ShisaKey)
    ensures PasswordRead(k.PasswordText()) == k.Stored().password
  {
    hide UpToNul;
    NothingCut(k.PasswordText());
  }

  /** Reading what was written gives the key back, without its version number and without an empty password. */
  lemma KeyRoundTrip(k: ShisaKey)
    ensures ParseKey(Encoded(k)) == Some(k.Stored())
  {
    hide ParseHeader, Header, Take, Wrap32, AsUnsigned, PasswordRead;
    HeaderParsed(k, k.key + (k.salt + (k.str2keyparam + k.PasswordText())));
    Taken(k.key, k.salt + (k.str2keyparam + k.PasswordText()));
    Taken(k.salt, k.str2keyparam + k.PasswordText());
    Taken(k.str2keyparam, k.PasswordText());
    Taken(k.PasswordText(), "");
    assert k.PasswordText() + "" == k.PasswordText();
    PasswordBack(k);
    WrapUnsigned(k.etype);
    WrapUnsigned(k.priority);
  }

  // ----- Reading from a stream -----

  /** FILE, opened for reading. */
  class Stream {
    const content: string
    var pos: nat

    ghost predicate Valid()
      reads this
    {
      pos <= |content|
    }

    ghost function Rest(): string
      requires Valid()
      reads this
    {
      content[pos..]
    }

    constructor (content: string)
      ensures Valid() && Rest() == content
    {
      this.content := content;
      pos := 0;
    }

    /** White space is passed over. */
    method SkipWhite()
      requires Valid()
      modifies this
      ensures Valid() && Rest() == SkipSpaces(old(Rest()))
    {
      hide IsSpace;
      while pos < |content| && IsSpace(content[pos])
        invariant Valid() && SkipSpaces(Rest()) == SkipSpaces(old(Rest()))
        decreases |content| - pos
      {
        pos := pos + 1;
      }
    }

    /** Digits, as many as there are, with their value. */
    method ReadDigits() returns (n: nat)
      requires Valid()
      modifies this
      ensures Valid()
      ensures var t, count := old(Rest()), LeadingDigits(old(Rest()));
              pos == old(pos) + count && Rest() == t[count..] && n == Value(t[..count], 10)
    {
      hide IsDigit, DigitValue, Value;
      ghost var t := Rest();
      var start := pos;
      n := 0;
      NoDigitsYet(t);
      while pos < |content| && IsDigit(content[pos], 10)
        invariant start <= pos <= |content|
        invariant LeadingDigits(t) == pos - start + LeadingDigits(content[pos..])
        invariant AllDigits(t[..pos - start], 10) && n == Value(t[..pos - start], 10)
        decreases |content| - pos
      {
        assert t[pos - start] == content[pos];
        OneDigitMore(t, pos - start);
        n := n * 10 + DigitValue(content[pos]);
        pos := pos + 1;
      }
    }

    /** One %u or %zu of fscanf. */
    method Scan() returns (v: Option<nat>)
      requires Valid()
      modifies this
      ensures Valid()
      ensures ScanUnsigned(old(Rest())) == None ==> v == None && Rest() == SkipSpaces(old(Rest()))
      ensures ScanUnsigned(old(Rest())) != None ==> v.Some? && ScanUnsigned(old(Rest())) == Some((v.value, Rest()))
    {
      hide SkipSpaces, LeadingDigits, Value;
      SkipWhite();
      var start := pos;
      var n := ReadDigits();
      v := if pos > start then Some(n) else None;
    }

    /** fread of one byte */
    method Get() returns (c: Option<char>)
      requires Valid()
      modifies this
      ensures Valid()
      ensures old(Rest()) == "" ==> c == None && Rest() == ""
      ensures old(Rest()) != "" ==> c == Some(old(Rest())[0]) && Rest() == old(Rest())[1..]
    {
      if pos == |content| {
        return None;
      }
      c := Some(content[pos]);
      pos := pos + 1;
    }

    /** fread of n bytes, or fewer if there are no more */
    method Read(n: nat) returns (s: Option<string>)
      requires Valid()
      modifies this
      ensures Valid()
      ensures Take(old(Rest()), n) == None ==> s == None
      ensures Take(old(Rest()), n) != None ==> s.Some? && Take(old(Rest()), n) == Some((s.value, Rest()))
      ensures s.Some? ==> |s.value| == n
    {
      if |content| - pos < n {
        pos := |content|;
        return None;
      }
      s := Some(content[pos..pos + n]);
      assert content[pos..][..n] == content[pos..pos + n] && content[pos..][n..] == content[pos + n..];
      pos := pos + n;
    }
  }

  lemma NoDigitsYet(t: string)
    ensures AllDigits(t[..0], 10) && Value(t[..0], 10) == 0
  {
  }

  lemma OneDigitMore(t: string, n: nat)
    requires n < |t| && AllDigits(t[..n], 10) && IsDigit(t[n], 10)
    ensures AllDigits(t[..n + 1], 10) && Value(t[..n + 1], 10) == Value(t[..n], 10) * 10 + DigitValue(t[n])
  {
    ValueOfLast(t[..n], t[n], 10);
    assert t[..n] + [t[n]] == t[..n + 1];
  }

  /** The body of `read_key`, once the file is open. */
  method ReadKey(content: string) returns (key: Option<ShisaKey>)
    ensures key == ParseKey(content)
  {
    hide ScanUnsigned, Take, SkipSpaces, Wrap32, UpToNul;
    var fh := new Stream(content);
    var etype := fh.Scan();
    if etype.None? { return None; }
    var keylen := fh.Scan();
    if keylen.None? { return None; }
    var saltlen := fh.Scan();
    if saltlen.None? { return None; }
    var str2keyparamlen := fh.Scan();
    if str2keyparamlen.None? { return None; }
    var passwdlen := fh.Scan();
    if passwdlen.None? { return None; }
    var priority := fh.Scan();
    if priority.Some? {
      var junk := fh.Get();
      if junk != Some('\n') { return None; }
    } else {
      priority := Some(0);
    }
    var k := fh.Read(keylen.value);
    if k.None? { return None; }
    var salt := fh.Read(saltlen.value);
    if salt.None? { return None; }
    var str2keyparam := fh.Read(str2keyparamlen.value);
    if str2keyparam.None? { return None; }
    var password := fh.Read(passwdlen.value);
    if password.None? { return None; }
    var read := NO_KEY.(etype := Wrap32(etype.value), priority := Wrap32(priority.value),
                        key := k.value, salt := salt.value, str2keyparam := str2keyparam.value);
    if passwdlen.value > 0 {
      read := read.(password := Some(UpToNul(password.value)));
    }
    key := Some(read);
  }
}
