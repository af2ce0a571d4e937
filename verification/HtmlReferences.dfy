/** HTMLparser.c: references as they are written by others than the encoder: in hexadecimal, without a
    semicolon, with a name that nobody knows. */
module HtmlReferences {
  import opened Strings
  import opened HtmlEncode

  // ----- hexadecimal numbers, in letters of either case

  const LOWER_DIGITS := "0123456789abcdef"
  const UPPER_DIGITS := "0123456789ABCDEF"

  predicate HexDigits(digits: string) { digits == LOWER_DIGITS || digits == UPPER_DIGITS }

  function Hexadecimal(digits: string, n: nat): string
    requires |digits| == 16
  {
    if n < 16 then [digits[n]] else Hexadecimal(digits, n / 16) + [digits[n % 16]]
  }

  lemma HexDigitRead(digits: string, d: nat)
    requires HexDigits(digits) && d < 16
    ensures HexDigit(digits[d]) == Some(d)
  {
  }

  predicate IsHexDigit(c: char) { '0' <= c <= '9' || 'a' <= c <= 'f' || 'A' <= c <= 'F' }

  predicate AllDigits(s: string) { forall c :: c in s ==> IsHexDigit(c) }

  lemma {:induction false} HexChars(digits: string, n: nat)
    requires HexDigits(digits)
    ensures Hexadecimal(digits, n) != "" && AllDigits(Hexadecimal(digits, n))
  {
    HexDigitRead(digits, n % 16);
    if n >= 16 { HexChars(digits, n / 16); }
  }

  lemma {:induction false} HexRun(s: string, rest: string, val: nat)
    requires AllDigits(s) && (rest == "" || !IsHexDigit(rest[0]))
    ensures HexLength(s + rest) == |s| && HexValue(s + rest, val) == HexValue(s, val)
    decreases |s|
  {
    if s == "" {
      assert s + rest == rest;
    } else {
      assert s[0] in s && forall c :: c in s[1..] ==> c in s;
      assert (s + rest)[1..] == s[1..] + rest;
      HexRun(s[1..], rest, val * 16 + HexDigit(s[0]).value);
    }
  }

  lemma {:induction false} HexAppend(s: string, c: char, val: nat)
    requires AllDigits(s) && IsHexDigit(c)
    ensures HexValue(s + [c], val) == HexValue(s, val) * 16 + HexDigit(c).value
    decreases |s|
  {
    if s == "" {
      assert s + [c] == [c] && [c][1..] == "";
    } else {
      assert s[0] in s && forall c :: c in s[1..] ==> c in s;
      assert (s + [c])[1..] == s[1..] + [c];
      HexAppend(s[1..], c, val * 16 + HexDigit(s[0]).value);
    }
  }

  lemma {:induction false} HexRead(digits: string, n: nat)
    requires HexDigits(digits)
    ensures HexValue(Hexadecimal(digits, n), 0) == n
  {
    HexDigitRead(digits, n % 16);
    if n < 16 {
      assert [digits[n]][1..] == "";
    } else {
      HexRead(digits, n / 16);
      HexChars(digits, n / 16);
      HexAppend(Hexadecimal(digits, n / 16), digits[n % 16], 0);
    }
  }

  /** What ends a number: a semicolon, which is taken up too, or anything else that is no digit. */
  function Semicolon(rest: string): nat { if rest != "" && rest[0] == ';' then 1 else 0 }

  lemma HexBranch(s: string)
    requires s != "" && (s[0] == 'x' || s[0] == 'X')
    ensures var d := s[1..];
            var val, n := HexValue(d, 0), HexLength(d);
            CharRef(s) == (if LegalChar(val) then val else 0, 1 + n + if n < |d| && d[n] == ';' then 1 else 0)
  {
  }

  lemma HexRefOf(s: string, h: string, rest: string)
    requires s != "" && (s[0] == 'x' || s[0] == 'X') && s[1..] == h + rest
    requires AllDigits(h) && (rest == "" || !IsHexDigit(rest[0]))
    ensures var n := HexValue(h, 0);
            CharRef(s) == (if LegalChar(n) then n else 0, 1 + |h| + Semicolon(rest))
  {
    HexRun(h, rest, 0);
    HexBranch(s);
    var d := s[1..];
    assert HexValue(d, 0) == HexValue(h, 0) && HexLength(d) == |h|;
    assert |d| == |h| + |rest| && (rest != "" ==> d[|h|] == rest[0]);
  }

  lemma NumberText(t: Table, s: string, n: nat, taken: nat)
    requires CharRef(s) == (if LegalChar(n) then n else 0, taken)
    ensures Reference(t, "&#" + s) == (if LegalChar(n) then Utf8(n) else "", 2 + taken)
  {
    assert ("&#" + s)[2..] == s && ("&#" + s)[1] == '#';
  }

  lemma HexText(t: Table, x: char, h: string, rest: string)
    requires (x == 'x' || x == 'X') && AllDigits(h) && (rest == "" || !IsHexDigit(rest[0]))
    ensures var n := HexValue(h, 0);
            Reference(t, "&#" + ([x] + (h + rest))) ==
            (if LegalChar(n) then Utf8(n) else "", 3 + |h| + Semicolon(rest))
  {
    HexRefOf([x] + (h + rest), h, rest);
    NumberText(t, [x] + (h + rest), HexValue(h, 0), 1 + |h| + Semicolon(rest));
  }

  /** A hexadecimal reference stands for its number, with a semicolon or without. */
  lemma HexReference(t: Table, digits: string, x: char, n: nat, rest: string)
    requires HexDigits(digits) && (x == 'x' || x == 'X') && (rest == "" || !IsHexDigit(rest[0]))
    ensures var h := Hexadecimal(digits, n);
            Reference(t, "&#" + ([x] + (h + rest))) ==
            (if LegalChar(n) then Utf8(n) else "", 3 + |h| + Semicolon(rest))
  {
    HexRead(digits, n);
    HexChars(digits, n);
    HexText(t, x, Hexadecimal(digits, n), rest);
  }

  /** So does a decimal one. */
  lemma DecimalReference(t: Table, n: nat, rest: string)
    requires rest == "" || !('0' <= rest[0] <= '9')
    ensures var d := Decimal(n);
            Reference(t, "&#" + (d + rest)) == (if LegalChar(n) then Utf8(n) else "", 2 + |d| + Semicolon(rest))
  {
    var d := Decimal(n);
    DecimalDigits(n);
    DecimalRead(n);
    ReadDigits(d, rest, 0);
    assert (d + rest)[0] == d[0];
    assert rest != "" ==> (d + rest)[|d|] == rest[0];
    NumberText(t, d + rest, n, |d| + Semicolon(rest));
  }

  // ----- names

  /** The names the reader takes: a letter, '_' or ':' first, then also digits, '-' and '.'. */
  predicate NameShape(name: string)
  {
    && name != ""
    && ('a' <= name[0] <= 'z' || 'A' <= name[0] <= 'Z' || name[0] == '_' || name[0] == ':')
    && forall c :: c in name ==> InName(c)
  }

  predicate InName(c: char)
  {
    'a' <= c <= 'z' || 'A' <= c <= 'Z' || '0' <= c <= '9' || c == '_' || c == ':' || c == '-' || c == '.'
  }

  /** A name stands for its character only with a semicolon and if the table knows it; else it is text,
      and so is a semicolon after it. */
  lemma NameReference(t: Table, name: string, rest: string)
    requires NameShape(name) && (rest == "" || !InName(rest[0]))
    ensures Reference(t, "&" + (name + rest)) ==
            if rest != "" && rest[0] == ';' && t.valueOf(name).Some? && t.valueOf(name).value > 0
            then (Utf8(t.valueOf(name).value), 2 + |name|)
            else ("&" + name,
                  1 + |name| + if rest != "" && rest[0] == ';' && t.valueOf(name).Some? then 1 else 0)
  {
    var s := "&" + (name + rest);
    forall k | 0 <= k < |name| ensures NameChar(name[k]) {
      assert name[k] in name;
    }
    ReadName(name, rest);
    assert s[1..] == name + rest && s[1..][..|name|] == name;
    assert rest != "" ==> s[|name| + 1] == rest[0];
  }

  /** An ampersand that begins nothing stands for itself. */
  lemma AmpersandAlone(t: Table, rest: string)
    requires rest == "" || (rest[0] != '#' && !NameShape([rest[0]]))
    ensures Reference(t, "&" + rest) == ("&", 1)
  {
    assert rest != "" ==> ("&" + rest)[1] == rest[0] && rest[0] in [rest[0]];
    assert rest != "" ==> (NameStart(rest[0]) <==> NameShape([rest[0]]));
  }

  // ----- text

  predicate Delivered(c: char)
  {
    (' ' <= c <= '~' && c != '&' && c != '<') || c == '\t' || c == '\n' || c == '\r'
  }

  lemma OneDelivered(t: Table, s: string)
    requires s != "" && Delivered(s[0])
    ensures Read(t, s) == [s[0]] + Read(t, s[1..])
  {
  }

  /** Text without ampersands is delivered as it is, up to markup, a zero or the end. */
  lemma {:induction false} TextUpTo(t: Table, s: string, n: nat)
    requires n <= |s| && forall k :: 0 <= k < n ==> Delivered(s[k])
    requires n == |s| || s[n] == '<' || s[n] == '\0'
    ensures Read(t, s) == s[..n]
    decreases n
  {
    if n > 0 {
      TextUpTo(t, s[1..], n - 1);
      OneDelivered(t, s);
      assert s[..n] == [s[0]] + s[1..][..n - 1];
    }
  }

  /** Control characters are dropped. */
  lemma ControlDropped(t: Table, c: char, rest: string)
    requires '\0' < c < ' ' && c !in "\t\n\r"
    ensures Read(t, [c] + rest) == Read(t, rest)
  {
    assert ([c] + rest)[1..] == rest;
  }
}
