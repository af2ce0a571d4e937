/** HTMLparser.c: the printer that turns UTF-8 into ASCII with references, and the parser that reads
    references back.  A string holds one character per byte. */
module HtmlEncode {
  import opened Strings

  /** The entity table: the name of a code point, and the code point of a name. */
  datatype Table = Table(nameOf: int -> Option<string>, valueOf: string -> Option<int>)

  // ----- reading UTF-8, as the printer does

  /** What a lead byte announces: its own bits and the number of bytes to come. */
  function Lead(d: int): Option<(int, nat)>
  {
    if d < 0x80 then Some((d, 0))
    else if d < 0xC0 then None
    else if d < 0xE0 then Some((d % 0x20, 1))
    else if d < 0xF0 then Some((d % 0x10, 2))
    else if d < 0xF8 then Some((d % 0x08, 3))
    else None
  }

  predicate Trailing(d: int) { 0x80 <= d < 0xC0 }

  datatype Decoded = Invalid | Short | Point(code: int, length: nat)

  /** `n` more bytes of a character whose bits so far are `c`. */
  function Continue(c: int, s: string, n: nat): Option<int>
    requires n <= |s|
    decreases n
  {
    if n == 0 then Some(c)
    else if !Trailing(s[0] as int) then None
    else Continue(c * 0x40 + s[0] as int % 0x40, s[1..], n - 1)
  }

  /** The character at the head of `s`. */
  function Decode(s: string): (r: Decoded)
    requires s != []
    ensures r.Point? ==> 1 <= r.length <= |s|
  {
    match Lead(s[0] as int)
    case None => Invalid
    case Some((c, n)) =>
      if |s| - 1 < n then Short
      else
        match Continue(c, s[1..], n)
        case None => Invalid
        case Some(code) => Point(code, n + 1)
  }

  /** A sequence of whole characters. */
  predicate Whole(s: string)
    decreases |s|
  {
    s == [] || (Decode(s).Point? && Whole(s[Decode(s).length..]))
  }

  // ----- printing

  function Digit(d: int): char
    requires 0 <= d < 10
  {
    '0' + d as char
  }

  function Decimal(n: nat): string
  {
    if n < 10 then [Digit(n)] else Decimal(n / 10) + [Digit(n % 10)]
  }

  predicate Plain(c: int, quoteChar: int)
  {
    c < 0x80 && c != quoteChar && c != '&' as int && c != '<' as int && c != '>' as int
  }

  function Name(t: Table, c: nat): string
  {
    match t.nameOf(c)
    case Some(name) => name
    case None => "#" + Decimal(c)
  }

  /** What one character is printed as. */
  function Print(t: Table, c: nat, quoteChar: int): string
  {
    if Plain(c, quoteChar) then [c as char] else "&" + Name(t, c) + ";"
  }

  lemma {:induction false} ContinueBound(c: int, s: string, n: nat)
    requires n <= |s| && 0 <= c
    ensures Continue(c, s, n).Some? ==> 0 <= Continue(c, s, n).value
    decreases n
  {
    if n > 0 && Trailing(s[0] as int) { ContinueBound(c * 0x40 + s[0] as int % 0x40, s[1..], n - 1); }
  }

  lemma DecodeBound(s: string)
    requires s != []
    ensures Decode(s).Point? ==> 0 <= Decode(s).code
  {
    var lead := Lead(s[0] as int);
    if lead.Some? && |s| - 1 >= lead.value.1 { ContinueBound(lead.value.0, s[1..], lead.value.1); }
  }

  /** The printed form of whole characters, one after the other. */
  function Encoded(t: Table, s: string, quoteChar: int): string
    requires Whole(s)
    decreases |s|
  {
    if s == [] then ""
    else
      DecodeBound(s);
      Print(t, Decode(s).code, quoteChar) + Encoded(t, s[Decode(s).length..], quoteChar)
  }

  // ----- whole characters compose

  lemma {:induction false} ContinueAppend(c: int, s: string, rest: string, n: nat)
    requires n <= |s|
    ensures Continue(c, s + rest, n) == Continue(c, s, n)
    decreases n
  {
    if n > 0 {
      assert (s + rest)[0] == s[0] && (s + rest)[1..] == s[1..] + rest;
      if Trailing(s[0] as int) { ContinueAppend(c * 0x40 + s[0] as int % 0x40, s[1..], rest, n - 1); }
    }
  }

  lemma DecodeAppend(s: string, rest: string)
    requires s != [] && !Decode(s).Short?
    ensures Decode(s + rest) == Decode(s)
  {
    assert (s + rest)[0] == s[0] && (s + rest)[1..] == s[1..] + rest;
    var lead := Lead(s[0] as int);
    if lead.Some? { ContinueAppend(lead.value.0, s[1..], rest, lead.value.1); }
  }

  /** Whole pieces put together are whole, and print as their pieces do. */
  lemma {:induction false} EncodedAppend(t: Table, a: string, b: string, quoteChar: int)
    requires Whole(a)
    ensures Whole(a + b) <==> Whole(b)
    ensures Whole(b) ==> Encoded(t, a + b, quoteChar) == Encoded(t, a, quoteChar) + Encoded(t, b, quoteChar)
    decreases |a|
  {
    if a == [] {
      assert a + b == b;
    } else {
      var n := Decode(a).length;
      DecodeAppend(a, b);
      assert (a + b)[n..] == a[n..] + b;
      EncodedAppend(t, a[n..], b, quoteChar);
      DecodeBound(a);
      if Whole(b) {
        Assoc(Print(t, Decode(a).code, quoteChar), Encoded(t, a[n..], quoteChar), Encoded(t, b, quoteChar));
      }
    }
  }

  /** One more whole character. */
  lemma EncodedStep(t: Table, s: string, from: nat, quoteChar: int)
    requires from < |s| && Whole(s[..from]) && Decode(s[from..]).Point?
    ensures 0 <= Decode(s[from..]).code
    ensures var n := Decode(s[from..]).length;
            Printed(t, Encoded(t, s[..from], quoteChar) + Print(t, Decode(s[from..]).code, quoteChar),
                    s, quoteChar, from + n)
  {
    var n := Decode(s[from..]).length;
    var one := s[from..from + n];
    DecodeBound(s[from..]);
    OneWhole(s[from..]);
    assert s[from..][..n] == one;
    assert one[n..] == [];
    assert s[..from] + one == s[..from + n];
    EncodedAppend(t, s[..from], one, quoteChar);
    var p := Print(t, Decode(one).code, quoteChar);
    assert p + "" == p;
  }

  lemma {:induction false} ContinueCut(c: int, s: string, n: nat)
    requires n <= |s|
    ensures Continue(c, s[..n], n) == Continue(c, s, n)
    decreases n
  {
    if n > 0 {
      assert s[..n][0] == s[0] && s[..n][1..] == s[1..][..n - 1];
      if Trailing(s[0] as int) { ContinueCut(c * 0x40 + s[0] as int % 0x40, s[1..], n - 1); }
    }
  }

  lemma OneWhole(s: string)
    requires s != [] && Decode(s).Point?
    ensures var one := s[..Decode(s).length];
            one != [] && Decode(one) == Decode(s) && Whole(one)
  {
    var n := Decode(s).length;
    var one := s[..n];
    ContinueCut(Lead(s[0] as int).value.0, s[1..], n - 1);
    assert one[1..] == s[1..][..n - 1];
    assert one[n..] == [];
  }

  // ----- htmlEncodeEntities

  /** Why a call that has consumed `at` of `s` and written `written` characters ends there: the input is
      used up, the next character is malformed (the only case that returns -2), it is not all there
      yet, or its printed form does not fit. */
  predicate StopsAt(t: Table, s: string, quoteChar: int, capacity: nat, written: nat, at: nat, ret: int)
  {
    && at <= |s|
    && if at == |s| then ret == 0
       else
         match Decode(s[at..])
         case Invalid => ret == -2
         case Short => ret == 0
         case Point(c, _) => ret == 0 && 0 <= c && written + |Print(t, c, quoteChar)| > capacity
  }

  /** What one call gives: it returns `ret`, has written `text` and consumed `inlen`. */
  predicate Call(t: Table, s: string, quoteChar: int, capacity: nat, ret: int, text: string, inlen: nat)
  {
    && inlen <= |s| && Whole(s[..inlen])
    && text == Encoded(t, s[..inlen], quoteChar) && |text| <= capacity
    && StopsAt(t, s, quoteChar, capacity, |text|, inlen, ret)
  }

  /** The trailing bytes of one character; `ok` tells whether they all are trailing bytes. */
  method ReadTrailing(s: string, from: nat, lead: int, trailing: nat) returns (ok: bool, c: int)
    requires from + trailing <= |s| && 0 <= lead
    ensures Continue(lead, s[from..], trailing) == (if ok then Some(c) else None)
    ensures 0 <= c
  {
    c := lead;
    var i := from;
    var left := trailing;
    while left > 0
      invariant 0 <= left <= trailing && i == from + (trailing - left) && 0 <= c
      invariant Continue(lead, s[from..], trailing) == Continue(c, s[i..], left)
    {
      assert s[i..][1..] == s[i + 1..];
      if !Trailing(s[i] as int) {
        return false, c;
      }
      c := c * 0x40 + s[i] as int % 0x40;
      i := i + 1;
      left := left - 1;
    }
    ok := true;
  }

  /** The next character of the input, or why there is none. */
  method ReadChar(s: string, at: nat) returns (d: Decoded)
    requires at < |s|
    ensures d == Decode(s[at..])
    ensures d.Point? ==> 0 <= d.code && at + d.length <= |s|
  {
    var lead := Lead(s[at] as int);
    assert s[at..][1..] == s[at + 1..];
    if lead.None? {
      return Invalid;
    }
    var (bits, trailing) := lead.value;
    if |s| - (at + 1) < trailing {
      return Short;
    }
    var ok, c := ReadTrailing(s, at + 1, bits, trailing);
    d := if ok then Point(c, trailing + 1) else Invalid;
  }

  /** htmlEncodeEntities: `out` holds exactly the printed form of the whole characters consumed, and
      the call goes as far as it can. */
  method EncodeEntities(t: Table, out: array<char>, s: string, quoteChar: int)
      returns (ret: int, outlen: nat, inlen: nat)
    modifies out
    ensures outlen <= out.Length && Call(t, s, quoteChar, out.Length, ret, out[..outlen], inlen)
    ensures Good(t) && IsQuoteChar(quoteChar) ==> Harmless(out[..outlen], quoteChar)
    ensures (forall c :: c in s[..inlen] ==> Ordinary(c, quoteChar)) ==> out[..outlen] == s[..inlen]
  {
    outlen, inlen, ret := 0, 0, 0;
    assert s[..0] == [];
    var more := true;
    while inlen < |s| && more
      invariant inlen <= |s| && outlen <= out.Length
      invariant Printed(t, out[..outlen], s, quoteChar, inlen)
      invariant if more then ret == 0 else StopsAt(t, s, quoteChar, out.Length, outlen, inlen, ret)
      decreases |s| - inlen, more
    {
      more, ret, outlen, inlen := EncodeOne(t, out, s, quoteChar, outlen, inlen);
    }
    if Good(t) && IsQuoteChar(quoteChar) { EncodedHarmless(t, s[..inlen], quoteChar); }
    if forall c :: c in s[..inlen] ==> Ordinary(c, quoteChar) { AllOrdinary(t, s[..inlen], quoteChar); }
  }

  /** `out` up to `outlen` is the printed form of the first `inlen` of `s`. */
  ghost predicate Printed(t: Table, out: string, s: string, quoteChar: int, inlen: nat)
  {
    inlen <= |s| && Whole(s[..inlen]) && out == Encoded(t, s[..inlen], quoteChar)
  }

  /** One turn of the loop: print the next character, or say why the call ends here. */
  method EncodeOne(t: Table, out: array<char>, s: string, quoteChar: int, outlen: nat, inlen: nat)
    returns (more: bool, ret: int, newOutlen: nat, newInlen: nat)
    requires inlen < |s| && outlen <= out.Length
    requires Printed(t, out[..outlen], s, quoteChar, inlen)
    modifies out
    ensures newInlen <= |s| && newOutlen <= out.Length
    ensures Printed(t, out[..newOutlen], s, quoteChar, newInlen)
    ensures if more then newInlen > inlen && ret == 0
            else newInlen == inlen && StopsAt(t, s, quoteChar, out.Length, newOutlen, newInlen, ret)
  {
    more, ret, newOutlen, newInlen := false, 0, outlen, inlen;
    var d := ReadChar(s, inlen);
    if !d.Point? {
      ret := if d.Invalid? then -2 else 0;
      return;
    }
    var text := Print(t, d.code, quoteChar);
    if outlen + |text| > out.Length {
      return;
    }
    Put(out, outlen, text);
    EncodedStep(t, s, inlen, quoteChar);
    more, newOutlen, newInlen := true, outlen + |text|, inlen + d.length;
  }

  lemma HeadOf(s: string, at: nat, to: nat)
    requires at < to <= |s| && Decode(s[at..to]).Point?
    ensures Decode(s[at..to]) == Decode(s[at..]) && 0 <= Decode(s[at..]).code
  {
    assert s[at..] == s[at..to] + s[to..];
    DecodeAppend(s[at..to], s[to..]);
    DecodeBound(s[at..to]);
  }

  /** Printing more whole characters gives more text. */
  lemma EncodedGrows(t: Table, s: string, quoteChar: int, at: nat, to: nat)
    requires at < to <= |s| && Whole(s[..at]) && Whole(s[..to])
    ensures Decode(s[at..]).Point? && 0 <= Decode(s[at..]).code
    ensures |Encoded(t, s[..to], quoteChar)| >= |Encoded(t, s[..at], quoteChar)| +
        |Print(t, Decode(s[at..]).code, quoteChar)|
  {
    var between := s[at..to];
    assert s[..to] == s[..at] + between;
    EncodedAppend(t, s[..at], between, quoteChar);
    HeadOf(s, at, to);
    assert Encoded(t, between, quoteChar)
        == Print(t, Decode(between).code, quoteChar) + Encoded(t, between[Decode(between).length..], quoteChar);
  }

  /** A call has one outcome. */
  lemma CallDetermined(t: Table, s: string, quoteChar: int, capacity: nat,
                       ret: int, text: string, inlen: nat, ret': int, text': string, inlen': nat)
    requires Call(t, s, quoteChar, capacity, ret, text, inlen)
    requires Call(t, s, quoteChar, capacity, ret', text', inlen')
    ensures inlen == inlen' && text == text' && ret == ret'
  {
    if inlen < inlen' { EncodedGrows(t, s, quoteChar, inlen, inlen'); }
    if inlen' < inlen { EncodedGrows(t, s, quoteChar, inlen', inlen); }
  }

  // ----- chains of calls

  datatype Outcome = Outcome(capacity: nat, text: string, inlen: nat)

  /** The outcomes of a chain of successful calls, each fed what the one before left over. */
  predicate Chain(t: Table, s: string, quoteChar: int, calls: seq<Outcome>)
    decreases |calls|
  {
    calls == [] || (
      && Call(t, s, quoteChar, calls[0].capacity, 0, calls[0].text, calls[0].inlen)
      && Chain(t, s[calls[0].inlen..], quoteChar, calls[1..]))
  }

  function Texts(calls: seq<Outcome>): string
  {
    if calls == [] then "" else calls[0].text + Texts(calls[1..])
  }

  /** What the chain leaves over. */
  function Rest(t: Table, s: string, quoteChar: int, calls: seq<Outcome>): (r: string)
    requires Chain(t, s, quoteChar, calls)
    decreases |calls|
  {
    if calls == [] then s else Rest(t, s[calls[0].inlen..], quoteChar, calls[1..])
  }

  /** However the output is cut up, the pieces make up the one-shot encoding of what was consumed, and
      only whole characters are ever left over. */
  lemma {:induction false} ChainIsOneShot(t: Table, s: string, quoteChar: int, calls: seq<Outcome>)
    requires Whole(s) && Chain(t, s, quoteChar, calls)
    ensures var rest := Rest(t, s, quoteChar, calls);
            && Whole(rest)
            && Encoded(t, s, quoteChar) == Texts(calls) + Encoded(t, rest, quoteChar)
    decreases |calls|
  {
    if calls == [] {
      assert "" + Encoded(t, s, quoteChar) == Encoded(t, s, quoteChar);
    } else {
      var n := calls[0].inlen;
      assert s == s[..n] + s[n..];
      EncodedAppend(t, s[..n], s[n..], quoteChar);
      ChainIsOneShot(t, s[n..], quoteChar, calls[1..]);
      Assoc(calls[0].text, Texts(calls[1..]), Encoded(t, Rest(t, s, quoteChar, calls), quoteChar));
    }
  }

  /** On whole characters a call fails to move on only when there is no room for the first one. */
  lemma CallProgress(t: Table, s: string, quoteChar: int, capacity: nat, ret: int, text: string, inlen: nat)
    requires Whole(s) && s != [] && Call(t, s, quoteChar, capacity, ret, text, inlen)
    ensures ret == 0 && 0 <= Decode(s).code
    ensures inlen == 0 <==> |Print(t, Decode(s).code, quoteChar)| > capacity
  {
    DecodeBound(s);
    assert s[..|s|] == s && s[0..] == s && s[..0] == [];
    if inlen > 0 { EncodedGrows(t, s, quoteChar, 0, inlen); }
    if inlen < |s| { EncodedGrows(t, s, quoteChar, inlen, |s|); }
  }

  // ----- reading references back

  /** Characters legal in XML (section 2.2 of XML 1.0). */
  predicate LegalChar(c: int)
  {
    || c == 0x9 || c == 0xA || c == 0xD
    || 0x20 <= c <= 0xD7FF || 0xE000 <= c <= 0xFFFD || 0x10000 <= c <= 0x10FFFF
  }

  /** The bytes of a code point (section 2 of RFC 2044). */
  function Utf8(c: nat): string
  {
    if c < 0x80 then [c as char]
    else if c < 0x800 then [(c / 0x40 + 0xC0) as char, (c % 0x40 + 0x80) as char]
    else if c < 0x10000 then
      [(c / 0x40 / 0x40 + 0xE0) as char, (c / 0x40 % 0x40 + 0x80) as char, (c % 0x40 + 0x80) as char]
    else
      [(c / 0x40 / 0x40 / 0x40 % 0x08 + 0xF0) as char, (c / 0x40 / 0x40 % 0x40 + 0x80) as char,
       (c / 0x40 % 0x40 + 0x80) as char, (c % 0x40 + 0x80) as char]
  }

  predicate IsDigit(c: char) { '0' <= c <= '9' }

  function DigitsLength(s: string): (n: nat)
    ensures n <= |s|
  {
    if s == [] || !IsDigit(s[0]) then 0 else 1 + DigitsLength(s[1..])
  }

  function DecimalValue(s: string, val: nat): nat
  {
    if s == [] || !IsDigit(s[0]) then val else DecimalValue(s[1..], val * 10 + (s[0] as int - '0' as int))
  }

  function HexDigit(c: char): Option<nat>
  {
    if '0' <= c <= '9' then Some(c as int - '0' as int)
    else if 'a' <= c <= 'f' then Some(c as int - 'a' as int + 10)
    else if 'A' <= c <= 'F' then Some(c as int - 'A' as int + 10)
    else None
  }

  function HexLength(s: string): (n: nat)
    ensures n <= |s|
  {
    if s == [] || HexDigit(s[0]).None? then 0 else 1 + HexLength(s[1..])
  }

  function HexValue(s: string, val: nat): nat
  {
    if s == [] || HexDigit(s[0]).None? then val else HexValue(s[1..], val * 16 + HexDigit(s[0]).value)
  }

  predicate IsLetter(c: char) { 'a' <= c <= 'z' || 'A' <= c <= 'Z' }

  predicate NameStart(c: char) { IsLetter(c) || c == '_' || c == ':' }

  predicate NameChar(c: char) { NameStart(c) || IsDigit(c) || c == '-' || c == '.' }

  function NameLength(s: string): (n: nat)
    ensures n <= |s| && forall k :: 0 <= k < n ==> NameChar(s[k])
  {
    if s == [] || !NameChar(s[0]) then 0 else 1 + NameLength(s[1..])
  }

  /** htmlParseCharRef after "&#": the value read, 0 if it is no legal character, and what it takes. */
  function CharRef(s: string): (r: (nat, nat))
    ensures r.1 <= |s| && (r.0 != 0 ==> LegalChar(r.0))
  {
    var hex := s != [] && (s[0] == 'x' || s[0] == 'X');
    var digits := if hex then s[1..] else s;
    var n := (if hex then 1 else 0) + (if hex then HexLength(digits) else DigitsLength(digits));
    var val := if hex then HexValue(digits, 0) else DecimalValue(digits, 0);
    (if LegalChar(val) then val else 0, if n < |s| && s[n] == ';' then n + 1 else n)
  }

  /** htmlParseReference: the text a reference at the head of `s` stands for, and what it takes. */
  function Reference(t: Table, s: string): (r: (string, nat))
    requires s != [] && s[0] == '&'
    ensures 1 <= r.1 <= |s|
  {
    if |s| > 1 && s[1] == '#' then
      var (val, n) := CharRef(s[2..]);
      (if val == 0 then "" else Utf8(val), 2 + n)
    else if |s| == 1 || !NameStart(s[1]) then ("&", 1)
    else
      var n := NameLength(s[1..]);
      var name := s[1..][..n];
      if n + 1 < |s| && s[n + 1] == ';' && t.valueOf(name).Some? then
        (if t.valueOf(name).value > 0 then Utf8(t.valueOf(name).value) else "&" + name, n + 2)
      else ("&" + name, n + 1)
  }

  /** The character data the parser delivers for `s`, up to markup or the end of the input;
      characters that are not legal are dropped. */
  function Read(t: Table, s: string): string
    decreases |s|
  {
    if s == [] || s[0] == '<' || s[0] == '\0' then ""
    else if s[0] == '&' then
      var (text, n) := Reference(t, s);
      text + Read(t, s[n..])
    else (if LegalChar(s[0] as int) then [s[0]] else "") + Read(t, s[1..])
  }

  predicate LooksLikeName(name: string)
  {
    name != "" && NameStart(name[0]) && forall k :: 0 <= k < |name| ==> NameChar(name[k])
  }

  /** What the table must be: a name leads back to its code point, looks like a name, and belongs to a
      legal character. */
  ghost predicate Good(t: Table)
  {
    forall c: int, name :: t.nameOf(c) == Some(name) ==>
      t.valueOf(name) == Some(c) && LegalChar(c) && LooksLikeName(name)
  }

  /** A character in its shortest form and legal in XML. */
  predicate Proper(s: string)
    requires s != [] && Decode(s).Point?
  {
    var d := Decode(s);
    && LegalChar(d.code)
    && d.length == if d.code < 0x80 then 1 else if d.code < 0x800 then 2 else if d.code < 0x10000 then 3 else 4
  }

  predicate AllProper(s: string)
    requires Whole(s)
    decreases |s|
  {
    s == [] || (Proper(s) && AllProper(s[Decode(s).length..]))
  }

  /** What reading gives back for one printed character. */
  function Back(c: nat): string
  {
    if LegalChar(c) then Utf8(c) else ""
  }

  // ----- decimal numbers

  lemma {:induction false} DecimalDigits(n: nat)
    ensures forall k :: 0 <= k < |Decimal(n)| ==> IsDigit(Decimal(n)[k])
    ensures Decimal(n) != ""
  {
    if n >= 10 { DecimalDigits(n / 10); }
  }

  lemma {:induction false} ReadDigits(digits: string, rest: string, val: nat)
    requires forall k :: 0 <= k < |digits| ==> IsDigit(digits[k])
    requires rest == "" || !IsDigit(rest[0])
    ensures DigitsLength(digits + rest) == |digits|
    ensures DecimalValue(digits + rest, val) == DecimalValue(digits, val)
    decreases |digits|
  {
    if digits == "" {
      assert digits + rest == rest;
    } else {
      assert (digits + rest)[1..] == digits[1..] + rest;
      ReadDigits(digits[1..], rest, val * 10 + (digits[0] as int - '0' as int));
    }
  }

  lemma {:induction false} ValueAppend(digits: string, d: char, val: nat)
    requires IsDigit(d) && forall k :: 0 <= k < |digits| ==> IsDigit(digits[k])
    ensures DecimalValue(digits + [d], val) == DecimalValue(digits, val) * 10 + (d as int - '0' as int)
    decreases |digits|
  {
    if digits == "" {
      assert digits + [d] == [d];
      assert DecimalValue([d][1..], val * 10 + (d as int - '0' as int)) == val * 10 + (d as int - '0' as int);
    } else {
      assert (digits + [d])[1..] == digits[1..] + [d];
      ValueAppend(digits[1..], d, val * 10 + (digits[0] as int - '0' as int));
    }
  }

  lemma {:induction false} DecimalRead(n: nat)
    ensures DecimalValue(Decimal(n), 0) == n
  {
    if n < 10 {
      assert Decimal(n)[1..] == "";
    } else {
      DecimalRead(n / 10);
      DecimalDigits(n / 10);
      ValueAppend(Decimal(n / 10), Digit(n % 10), 0);
    }
  }

  // ----- one character

  lemma NumberRead(t: Table, c: nat, rest: string)
    ensures var p := "&" + ("#" + Decimal(c)) + ";";
            Reference(t, p + rest) == (Back(c), |p|)
  {
    var d := Decimal(c);
    var p := "&" + ("#" + d) + ";";
    var s := p + rest;
    var tail := d + (";" + rest);
    assert s[0] == '&' && s[1] == '#' && s[2..] == tail;
    DecimalDigits(c);
    DecimalRead(c);
    ReadDigits(d, ";" + rest, 0);
    assert tail[0] == d[0] && tail[|d|] == ';';
  }

  lemma {:induction false} ReadName(name: string, rest: string)
    requires forall k :: 0 <= k < |name| ==> NameChar(name[k])
    requires rest == "" || !NameChar(rest[0])
    ensures NameLength(name + rest) == |name|
    decreases |name|
  {
    if name == "" {
      assert name + rest == rest;
    } else {
      assert (name + rest)[1..] == name[1..] + rest;
      ReadName(name[1..], rest);
    }
  }

  lemma NameRead(t: Table, c: nat, name: string, rest: string)
    requires Good(t) && t.nameOf(c) == Some(name)
    ensures var p := "&" + name + ";";
            Reference(t, p + rest) == (Back(c), |p|)
  {
    var p := "&" + name + ";";
    var s := p + rest;
    assert s[0] == '&' && s[1..] == name + (";" + rest);
    assert s[1] == name[0] && s[|name| + 1] == ';';
    ReadName(name, ";" + rest);
    assert s[1..][..|name|] == name;
  }

  lemma ReadReference(t: Table, p: string, rest: string, text: string)
    requires p != "" && p[0] == '&' && Reference(t, p + rest) == (text, |p|)
    ensures Read(t, p + rest) == text + Read(t, rest)
  {
    var s := p + rest;
    assert s[0] == '&' && s[|p|..] == rest;
  }

  lemma ReadPlain(t: Table, c: nat, rest: string)
    requires 0 < c < 0x80 && c != '&' as int && c != '<' as int
    ensures Read(t, [c as char] + rest) == Back(c) + Read(t, rest)
  {
    var s := [c as char] + rest;
    assert s[0] == c as char && s[1..] == rest;
  }

  /** Whatever follows, a printed character is read back as its code point, if legal. */
  lemma PrintRead(t: Table, c: nat, quoteChar: int, rest: string)
    requires Good(t) && c < 0x200000 && !(c == 0 && Plain(c, quoteChar))
    ensures Read(t, Print(t, c, quoteChar) + rest) == Back(c) + Read(t, rest)
  {
    if Plain(c, quoteChar) {
      ReadPlain(t, c, rest);
    } else {
      match t.nameOf(c) {
        case Some(n) => NameRead(t, c, n, rest);
        case None => NumberRead(t, c, rest);
      }
      ReadReference(t, "&" + Name(t, c) + ";", rest, Back(c));
    }
  }

  // ----- the round trip

  /** Re-encoding a decoded character never gives more bytes than it had, and gives those bytes back
      exactly when it was in its shortest form. */
  lemma Reencoded(s: string)
    requires s != [] && Decode(s).Point?
    ensures 0 <= Decode(s).code < 0x200000
    ensures |Utf8(Decode(s).code)| <= Decode(s).length
    ensures Utf8(Decode(s).code) == s[..Decode(s).length] <==> |Utf8(Decode(s).code)| == Decode(s).length
  {
    var d := Decode(s);
    var lead := Lead(s[0] as int).value;
    if d.length == 1 {
      assert s[..1] == [s[0]];
    } else if d.length == 2 {
      Continue1(lead.0, s);
      Reencoded2(s[0] as int, s[1] as int);
    } else if d.length == 3 {
      Continue2(lead.0, s);
      Reencoded3(s[0] as int, s[1] as int, s[2] as int);
    } else {
      Continue3(lead.0, s);
      Reencoded4(s[0] as int, s[1] as int, s[2] as int, s[3] as int);
    }
  }

  lemma SixBits(high: int, low: int)
    requires 0 <= low < 0x40
    ensures (high * 0x40 + low) / 0x40 == high && (high * 0x40 + low) % 0x40 == low
  {
  }

  lemma LowBits(a: int, b: int)
    ensures 0xC0 <= a < 0xE0 ==> a % 0x20 == a - 0xC0
    ensures 0xE0 <= a < 0xF0 ==> a % 0x10 == a - 0xE0
    ensures 0xF0 <= a < 0xF8 ==> a % 0x08 == a - 0xF0
    ensures Trailing(b) ==> b % 0x40 == b - 0x80
  {
  }

  lemma Utf8Of2(x: int, y: int, c: nat)
    requires 0 <= x < 0x20 && 0 <= y < 0x40 && c == x * 0x40 + y && c >= 0x80
    ensures Utf8(c) == [(x + 0xC0) as char, (y + 0x80) as char]
  {
    SixBits(x, y);
  }

  lemma Utf8Of3(x: int, y: int, z: int, c: nat)
    requires 0 <= x < 0x10 && 0 <= y < 0x40 && 0 <= z < 0x40
    requires c == (x * 0x40 + y) * 0x40 + z && 0x800 <= c < 0x10000
    ensures Utf8(c) == [(x + 0xE0) as char, (y + 0x80) as char, (z + 0x80) as char]
  {
    SixBits(x, y);
    SixBits(x * 0x40 + y, z);
  }

  lemma Utf8Of4(x: int, y: int, z: int, w: int, c: nat)
    requires 0 <= x < 0x08 && 0 <= y < 0x40 && 0 <= z < 0x40 && 0 <= w < 0x40
    requires c == ((x * 0x40 + y) * 0x40 + z) * 0x40 + w && 0x10000 <= c < 0x200000
    ensures Utf8(c) == [(x + 0xF0) as char, (y + 0x80) as char, (z + 0x80) as char, (w + 0x80) as char]
  {
    SixBits(x, y);
    SixBits(x * 0x40 + y, z);
    SixBits((x * 0x40 + y) * 0x40 + z, w);
  }

  lemma Reencoded2(a: int, b: int)
    requires 0xC0 <= a < 0xE0 && Trailing(b)
    ensures var c := a % 0x20 * 0x40 + b % 0x40;
            && 0 <= c < 0x800 && |Utf8(c)| <= 2
            && (|Utf8(c)| == 2 ==> Utf8(c) == [a as char, b as char])
  {
    LowBits(a, b);
    var c := a % 0x20 * 0x40 + b % 0x40;
    if c >= 0x80 { Utf8Of2(a - 0xC0, b - 0x80, c); }
  }

  lemma Reencoded3(a: int, b: int, d: int)
    requires 0xE0 <= a < 0xF0 && Trailing(b) && Trailing(d)
    ensures var c := (a % 0x10 * 0x40 + b % 0x40) * 0x40 + d % 0x40;
            && 0 <= c < 0x10000 && |Utf8(c)| <= 3
            && (|Utf8(c)| == 3 ==> Utf8(c) == [a as char, b as char, d as char])
  {
    LowBits(a, b);
    LowBits(a, d);
    var c := (a % 0x10 * 0x40 + b % 0x40) * 0x40 + d % 0x40;
    if c >= 0x800 { Utf8Of3(a - 0xE0, b - 0x80, d - 0x80, c); }
  }

  lemma Reencoded4(a: int, b: int, d: int, e: int)
    requires 0xF0 <= a < 0xF8 && Trailing(b) && Trailing(d) && Trailing(e)
    ensures var c := ((a % 0x08 * 0x40 + b % 0x40) * 0x40 + d % 0x40) * 0x40 + e % 0x40;
            && 0 <= c < 0x200000 && |Utf8(c)| <= 4
            && (|Utf8(c)| == 4 ==> Utf8(c) == [a as char, b as char, d as char, e as char])
  {
    LowBits(a, b);
    LowBits(a, d);
    LowBits(a, e);
    var c := ((a % 0x08 * 0x40 + b % 0x40) * 0x40 + d % 0x40) * 0x40 + e % 0x40;
    if c >= 0x10000 { Utf8Of4(a - 0xF0, b - 0x80, d - 0x80, e - 0x80, c); }
  }

  lemma Continue1(c: int, s: string)
    requires |s| >= 2 && Continue(c, s[1..], 1).Some?
    ensures Trailing(s[1] as int) && Continue(c, s[1..], 1).value == c * 0x40 + s[1] as int % 0x40
    ensures s[..2] == [s[0], s[1]]
  {
  }

  lemma Continue2(c: int, s: string)
    requires |s| >= 3 && Continue(c, s[1..], 2).Some?
    ensures Trailing(s[1] as int) && Trailing(s[2] as int)
    ensures Continue(c, s[1..], 2).value == (c * 0x40 + s[1] as int % 0x40) * 0x40 + s[2] as int % 0x40
    ensures s[..3] == [s[0], s[1], s[2]]
  {
    assert s[1..][1..] == s[2..];
  }

  lemma Continue3(c: int, s: string)
    requires |s| >= 4 && Continue(c, s[1..], 3).Some?
    ensures Trailing(s[1] as int) && Trailing(s[2] as int) && Trailing(s[3] as int)
    ensures Continue(c, s[1..], 3).value ==
            ((c * 0x40 + s[1] as int % 0x40) * 0x40 + s[2] as int % 0x40) * 0x40 + s[3] as int % 0x40
    ensures s[..4] == [s[0], s[1], s[2], s[3]]
  {
    assert s[1..][1..] == s[2..] && s[2..][1..] == s[3..];
  }

  /** Pieces that are no longer than what they should be give it only if both do. */
  lemma Pieces(first: string, rest: string, back: string, read: string)
    requires |back| <= |first| && |read| <= |rest|
    ensures back + read == first + rest <==> back == first && read == rest
  {
    if back + read == first + rest {
      assert |back| == |first|;
      Cancel(back, read, rest);
      assert first == (first + rest)[..|first|] && back == (back + read)[..|back|];
    }
  }

  /** Reading the printed form gives the original back exactly when every character is legal in XML
      and in its shortest form, whichever quote character is escaped. */
  lemma {:induction false} RoundTrip(t: Table, s: string, quoteChar: int)
    requires Good(t) && Whole(s)
    ensures Read(t, Encoded(t, s, quoteChar)) == s <==> AllProper(s)
    ensures |Read(t, Encoded(t, s, quoteChar))| <= |s|
    decreases |s|
  {
    if s != [] {
      var d := Decode(s);
      DecodeBound(s);
      var first, rest := s[..d.length], s[d.length..];
      var tail := Encoded(t, rest, quoteChar);
      assert s == first + rest;
      BackProper(s);
      if d.code == 0 && Plain(d.code, quoteChar) {
        assert (Print(t, d.code, quoteChar) + tail)[0] == '\0';
      } else {
        PrintRead(t, d.code, quoteChar, tail);
        RoundTrip(t, rest, quoteChar);
        Pieces(first, rest, Back(d.code), Read(t, tail));
      }
    }
  }

  lemma BackProper(s: string)
    requires s != [] && Decode(s).Point?
    ensures 0 <= Decode(s).code < 0x200000 && |Back(Decode(s).code)| <= Decode(s).length
    ensures Back(Decode(s).code) == s[..Decode(s).length] <==> Proper(s)
  {
    Reencoded(s);
  }

  // ----- the bytes that go out

  /** What stands between the '&' and the ';' of a reference. */
  predicate InReference(c: char)
  {
    'a' <= c <= 'z' || 'A' <= c <= 'Z' || '0' <= c <= '9' || c in "#:_-."
  }

  /** The '&' at `k` begins a reference, which ends at `m`. */
  predicate ReferenceEnds(out: string, k: nat, m: nat)
  {
    k + 1 < m < |out| && out[m] == ';' && forall j :: k < j < m ==> InReference(out[j])
  }

  ghost predicate ReferenceAt(out: string, k: nat) { exists m: nat :: ReferenceEnds(out, k, m) }

  /** ASCII with nothing in it that is markup or ends an attribute value in these quotes. */
  ghost predicate Harmless(out: string, quoteChar: int)
  {
    && (forall c :: c in out ==> c as int < 0x80 && c != '<' && c != '>' && c as int != quoteChar)
    && forall k :: 0 <= k < |out| && out[k] == '&' ==> ReferenceAt(out, k)
  }

  predicate IsQuoteChar(quoteChar: int) { quoteChar == 0 || quoteChar == '\"' as int || quoteChar == '\'' as int }

  lemma HarmlessAppend(a: string, b: string, quoteChar: int)
    requires Harmless(a, quoteChar) && Harmless(b, quoteChar)
    ensures Harmless(a + b, quoteChar)
  {
    var out := a + b;
    forall k | 0 <= k < |out| && out[k] == '&' ensures ReferenceAt(out, k) {
      if k < |a| {
        assert ReferenceAt(a, k);
        var m: nat :| ReferenceEnds(a, k, m);
        assert ReferenceEnds(out, k, m);
      } else {
        assert ReferenceAt(b, k - |a|);
        var m: nat :| ReferenceEnds(b, k - |a|, m);
        assert ReferenceEnds(out, k, |a| + m);
      }
    }
  }

  lemma ReferenceHarmless(name: string, quoteChar: int)
    requires name != "" && (forall c :: c in name ==> InReference(c)) && IsQuoteChar(quoteChar)
    ensures Harmless("&" + name + ";", quoteChar)
  {
    var out := "&" + name + ";";
    assert forall j :: 0 < j < |out| - 1 ==> out[j] == name[j - 1] && name[j - 1] in name;
    assert ReferenceEnds(out, 0, |out| - 1);
    forall k | 0 <= k < |out| && out[k] == '&' ensures ReferenceAt(out, k) {
      assert k == 0;
    }
  }

  lemma PrintHarmless(t: Table, c: nat, quoteChar: int)
    requires Good(t) && IsQuoteChar(quoteChar)
    ensures Harmless(Print(t, c, quoteChar), quoteChar)
  {
    var p := Print(t, c, quoteChar);
    if p == "&" + Name(t, c) + ";" {
      DecimalDigits(c);
      var name := Name(t, c);
      forall x | x in name ensures InReference(x) {
        var k :| 0 <= k < |name| && name[k] == x;
        if t.nameOf(c).None? && k > 0 { assert x == Decimal(c)[k - 1]; }
      }
      ReferenceHarmless(name, quoteChar);
    }
  }

  /** Whatever the input, what goes out for no quotes or for quotes of either kind is harmless. */
  lemma {:induction false} EncodedHarmless(t: Table, s: string, quoteChar: int)
    requires Good(t) && IsQuoteChar(quoteChar) && Whole(s)
    ensures Harmless(Encoded(t, s, quoteChar), quoteChar)
    decreases |s|
  {
    if s != [] {
      DecodeBound(s);
      PrintHarmless(t, Decode(s).code, quoteChar);
      EncodedHarmless(t, s[Decode(s).length..], quoteChar);
      HarmlessAppend(Print(t, Decode(s).code, quoteChar), Encoded(t, s[Decode(s).length..], quoteChar), quoteChar);
    }
  }

  /** An ASCII character that needs no reference. */
  predicate Ordinary(c: char, quoteChar: int)
  {
    c as int < 0x80 && c != '&' && c != '<' && c != '>' && c as int != quoteChar
  }

  lemma OneOrdinary(t: Table, c: char, quoteChar: int)
    requires Ordinary(c, quoteChar)
    ensures Whole([c]) && Encoded(t, [c], quoteChar) == [c]
  {
    assert [c][1..] == [];
    assert Decode([c]) == Point(c as int, 1);
    assert [c] + "" == [c];
  }

  /** It goes out as it is, between what the rest goes out as. */
  lemma OrdinaryGoesOut(t: Table, a: string, c: char, b: string, quoteChar: int)
    requires Whole(a) && Whole(b) && Ordinary(c, quoteChar)
    ensures Whole(a + [c] + b)
    ensures Encoded(t, a + [c] + b, quoteChar) == Encoded(t, a, quoteChar) + [c] + Encoded(t, b, quoteChar)
  {
    OneOrdinary(t, c, quoteChar);
    EncodedAppend(t, a, [c], quoteChar);
    EncodedAppend(t, a + [c], b, quoteChar);
  }

  lemma {:induction false} AllOrdinary(t: Table, s: string, quoteChar: int)
    requires forall c :: c in s ==> Ordinary(c, quoteChar)
    ensures Whole(s) && Encoded(t, s, quoteChar) == s
  {
    if s != "" {
      assert s == [s[0]] + s[1..] && s[0] in s && forall c :: c in s[1..] ==> c in s;
      AllOrdinary(t, s[1..], quoteChar);
      OneOrdinary(t, s[0], quoteChar);
      EncodedAppend(t, [s[0]], s[1..], quoteChar);
    }
  }

  /** Section 2.2 of XML 1.0 by what it leaves out: control characters but three, surrogates, and the two
      code points that are no characters. */
  lemma LegalCharExactly(c: int)
    ensures LegalChar(c) <==>
              && 0 <= c < 0x110000 && !(0xD800 <= c < 0xE000) && c != 0xFFFE && c != 0xFFFF
              && (c >= 32 || c == 9 || c == 10 || c == 13)
  {
  }
}
