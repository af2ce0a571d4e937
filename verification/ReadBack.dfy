/** How an XML parser reads attribute values and character data (sections 2.11, 3.3.3 and 4.6 of XML 1.0;
    parser.c 3967-4130, with entities substituted), and which URIs come back as they were. */
module ReadBack {
  import opened Strings
  import opened Canonical
  import opened QuotedUri
  import U = UriSyntax
  import H = HtmlEncode
  import Norm = Normalize

  // ----- reading

  /** A reference to one of the five entities that need no declaration. */
  function Predefined(x: string): Option<(string, nat)>
  {
    if StartsWith(x, "&lt;") then Some(("<", 4))
    else if StartsWith(x, "&gt;") then Some((">", 4))
    else if StartsWith(x, "&amp;") then Some(("&", 5))
    else if StartsWith(x, "&quot;") then Some(("\"", 6))
    else if StartsWith(x, "&apos;") then Some(("'", 6))
    else None
  }

  /** A reference by number whose `n` digits begin at `at`. */
  function Numbered(x: string, at: nat, n: nat, val: nat): Option<(string, nat)>
  {
    if n > 0 && at + n < |x| && x[at + n] == ';' && H.LegalChar(val) then Some((H.Utf8(val), at + n + 1)) else None
  }

  /** What a reference stands for, and its length; without a declaration no other entity can be meant. */
  function Expanded(x: string): Option<(string, nat)>
  {
    if StartsWith(x, "&#x") then Numbered(x, 3, H.HexLength(x[3..]), H.HexValue(x[3..], 0))
    else if StartsWith(x, "&#") then Numbered(x, 2, H.DigitsLength(x[2..]), H.DecimalValue(x[2..], 0))
    else Predefined(x)
  }

  predicate Blank(c: char) { c == '\t' || c == '\n' || c == '\r' }

  /** How much of `x` is one line end or one blank character. */
  function BlankLength(x: string): nat { if StartsWith(x, "\r\n") then 2 else 1 }

  function Prepend(s: string, t: Option<string>): Option<string>
  {
    if t.None? then None else Some(s + t.value)
  }

  lemma {:induction false} DigitsValue(s: string, val: nat)
    ensures H.DigitsLength(s) == 0 ==> H.DecimalValue(s, val) == val
    ensures H.DigitsLength(s) == 1 ==> H.DecimalValue(s, val) <= val * 10 + 9
  {
    if s != [] && H.IsDigit(s[0]) {
      DigitsValue(s[1..], val * 10 + (s[0] as int - '0' as int));
    }
  }

  /** A reference is longer than what it stands for, and no other one begins inside it. */
  lemma ExpandedShorter(x: string)
    requires Expanded(x).Some?
    ensures var (t, n) := Expanded(x).value; 0 < |t| < n <= |x| && x[0] == '&' && '&' !in x[1..n]
  {
    if StartsWith(x, "&#x") {
      HexChars(x[3..]);
      assert x[..3] == "&#x" && x[0] == '&' && x[1] == '#' && x[2] == 'x';
    } else if StartsWith(x, "&#") {
      DigitsValue(x[2..], 0);
      DigitChars(x[2..]);
      assert x[..2] == "&#" && x[0] == '&' && x[1] == '#';
    } else {
      PredefinedShorter(x);
    }
  }

  lemma PredefinedShorter(x: string)
    requires Predefined(x).Some?
    ensures var (t, n) := Predefined(x).value; 0 < |t| < n <= |x| && x[0] == '&' && '&' !in x[1..n]
  {
    var n := Predefined(x).value.1;
    assert x[1..n] == x[..n][1..];
    assert x[0] == x[..n][0];
  }

  lemma {:induction false} HexChars(s: string)
    ensures forall k :: 0 <= k < H.HexLength(s) ==> s[k] != '&'
  {
    if s != [] && H.HexDigit(s[0]).Some? {
      HexChars(s[1..]);
      forall k | 0 <= k < H.HexLength(s) ensures s[k] != '&' {
        if k > 0 { assert s[k] == s[1..][k - 1]; }
      }
    }
  }

  lemma {:induction false} DigitChars(s: string)
    ensures forall k :: 0 <= k < H.DigitsLength(s) ==> s[k] != '&'
  {
    if s != [] && H.IsDigit(s[0]) {
      DigitChars(s[1..]);
      forall k | 0 <= k < H.DigitsLength(s) ensures s[k] != '&' {
        if k > 0 { assert s[k] == s[1..][k - 1]; }
      }
    }
  }

  /** The data delivered for `x`, unless `x` is not well-formed. */
  function ReadData(x: string, inAttribute: bool): Option<string>
    decreases |x|
  {
    if x == "" then Some("")
    else if x[0] == '<' then None
    else if x[0] == '&' then
      var r := Expanded(x);
      if r.None? then None
      else
        ExpandedShorter(x);
        Prepend(r.value.0, ReadData(x[r.value.1..], inAttribute))
    else if Blank(x[0]) then
      Prepend(if inAttribute then " " else if x[0] == '\t' then "\t"
        else "\n", ReadData(x[BlankLength(x)..], inAttribute))
    else if x[0] < ' ' then None
    else Prepend([x[0]], ReadData(x[1..], inAttribute))
  }

  // ----- what comes back as it was

  /** No markup, no reference, and of the characters below the blank none, whatever a parser makes of them. */
  predicate Clean(u: string) { forall c :: c in u ==> c >= ' ' && c != '<' && c != '&' }

  lemma {:induction false} ReadClean(u: string, inAttribute: bool)
    requires Clean(u)
    ensures ReadData(u, inAttribute) == Some(u)
  {
    if u != "" {
      assert u[0] in u && u == [u[0]] + u[1..];
      assert forall c :: c in u[1..] ==> c in u;
      ReadClean(u[1..], inAttribute);
    }
  }

  /** In an attribute nothing gets longer, and only what is clean stays as it is. */
  lemma {:induction false} ReadShrinks(x: string)
    requires ReadData(x, true).Some?
    ensures var w := ReadData(x, true).value;
            |w| <= |x| && (w == "" ==> x == "") && (w == x ==> Clean(x))
    decreases |x|
  {
    var w := ReadData(x, true).value;
    if x != "" && x[0] == '&' {
      ExpandedShorter(x);
      ReadShrinks(x[Expanded(x).value.1..]);
    } else if x != "" && Blank(x[0]) {
      assert w[0] == ' ';
      ReadShrinks(x[BlankLength(x)..]);
    } else if x != "" {
      ReadShrinks(x[1..]);
      assert x == [x[0]] + x[1..] && w == [x[0]] + w[1..];
    }
  }

  lemma {:induction false} ReadFront(a: string, x: string)
    requires Clean(a)
    ensures ReadData(a + x, true) == Prepend(a, ReadData(x, true))
    decreases |a|
  {
    var t := ReadData(x, true);
    if a == "" {
      assert a + x == x && (t.Some? ==> a + t.value == t.value);
    } else {
      assert a[0] in a && forall c :: c in a[1..] ==> c in a;
      assert (a + x)[1..] == a[1..] + x;
      ReadFront(a[1..], x);
      assert a == [a[0]] + a[1..];
      if t.Some? { Assoc([a[0]], a[1..], t.value); }
    }
  }

  // ----- URIs between quotes

  /** What is written for a URI, without the quotes around it. */
  function Written(u: string): string
  {
    if '\"' in u && '\'' in u then EscapeQuotes(u) else u
  }

  lemma QuotedIsWritten(u: string)
    ensures var q := (if '\"' in u && '\'' !in u then "\'" else "\"");
            Quoted(u) == q + Written(u) + q && q[0] !in Written(u)
  {
    EscapeChars(u);
  }

  /** The URI that a parser reads back. */
  function ReadUri(u: string): Option<string> { ReadData(Written(u), true) }

  lemma QuoteExpanded(x: string)
    ensures Expanded(REF + x) == Some(("\"", 6)) && (REF + x)[6..] == x
  {
    var y := REF + x;
    assert y[..6] == REF;
    assert y[0] == '&' && y[1] == 'q' && y[2] == 'u';
  }

  lemma AmpersandExpanded(x: string)
    ensures Expanded("&amp;" + x) == Some(("&", 5)) && ("&amp;" + x)[5..] == x
  {
    var y := "&amp;" + x;
    assert y[..5] == "&amp;";
    assert y[0] == '&' && y[1] == 'a' && y[2] == 'm';
  }

  lemma {:induction false} ReadEscapedClean(u: string)
    requires Clean(u)
    ensures ReadData(EscapeQuotes(u), true) == Some(u)
  {
    if u != "" {
      assert u[0] in u && u == [u[0]] + u[1..];
      assert forall c :: c in u[1..] ==> c in u;
      ReadEscapedClean(u[1..]);
      var x := EscapeQuotes(u[1..]);
      if u[0] == '\"' { QuoteExpanded(x); } else { assert ([u[0]] + x)[1..] == x; }
    }
  }

  /** Up to the next '&' nothing was escaped. */
  lemma {:induction false} EscapedFront(v: string, k: nat)
    requires k <= |EscapeQuotes(v)| && '&' !in EscapeQuotes(v)[..k]
    ensures k <= |v| && EscapeQuotes(v)[..k] == v[..k] && EscapeQuotes(v)[k..] == EscapeQuotes(v[k..])
  {
    if k == 0 {
      assert v[0..] == v;
    } else {
      var x := EscapeQuotes(v);
      assert x[0] == x[..k][0] && x[0] in x[..k];
      assert v[0] != '\"';
      assert x[1..] == EscapeQuotes(v[1..]) && x[..k][1..] == x[1..][..k - 1];
      EscapedFront(v[1..], k - 1);
      assert v[k..] == v[1..][k - 1..] && x[k..] == x[1..][k - 1..];
      assert v[..k] == [v[0]] + v[1..][..k - 1];
    }
  }

  lemma {:induction false} ReadEscapedShrinks(u: string)
    requires ReadData(EscapeQuotes(u), true).Some?
    ensures var w := ReadData(EscapeQuotes(u), true).value;
            |w| <= |u| && (w == "" ==> u == "") && (w == u ==> Clean(u))
    decreases |u|
  {
    if u != "" {
      var x := EscapeQuotes(u);
      var w := ReadData(x, true).value;
      var rest := EscapeQuotes(u[1..]);
      assert u == [u[0]] + u[1..];
      if u[0] == '\"' {
        QuoteExpanded(rest);
        ReadEscapedShrinks(u[1..]);
        assert w == ['\"'] + w[1..];
      } else if u[0] == '&' {
        ReferenceShrinks(u);
      } else if Blank(u[0]) {
        BlankShrinks(u);
      } else {
        assert x[1..] == rest;
        ReadEscapedShrinks(u[1..]);
        assert w == [u[0]] + w[1..];
      }
    }
  }

  lemma {:induction false} ReferenceShrinks(u: string)
    requires At(u, '&') && ReadData(EscapeQuotes(u), true).Some?
    ensures var w := ReadData(EscapeQuotes(u), true).value; 0 < |w| < |u|
    decreases |u|, 0
  {
    var x := EscapeQuotes(u);
    var rest := EscapeQuotes(u[1..]);
    assert x[0] == '&' && x[1..] == rest;
    ExpandedShorter(x);
    var n := Expanded(x).value.1;
    assert x[1..n] == rest[..n - 1];
    EscapedFront(u[1..], n - 1);
    assert x[n..] == rest[n - 1..] && u[n..] == u[1..][n - 1..];
    ReadEscapedShrinks(u[n..]);
  }

  predicate At(s: string, c: char) { s != "" && s[0] == c }

  lemma {:induction false} BlankShrinks(u: string)
    requires u != "" && Blank(u[0]) && ReadData(EscapeQuotes(u), true).Some?
    ensures var w := ReadData(EscapeQuotes(u), true).value; 0 < |w| <= |u| && w != u
    decreases |u|, 0
  {
    var x := EscapeQuotes(u);
    var n := BlankLength(x);
    assert x[0] == u[0] && x[1..] == EscapeQuotes(u[1..]);
    if n == 2 {
      assert x[..2] == "\r\n" && x[1] == '\n';
    }
    assert '&' !in x[..n];
    EscapedFront(u, n);
    ReadEscapedShrinks(u[n..]);
    assert ReadData(x, true).value[0] == ' ';
  }

  /** A URI is read back as it was exactly if it is clean. */
  lemma ReadsBackExactly(u: string)
    ensures ReadUri(u) == Some(u) <==> Clean(u)
  {
    if '\"' in u && '\'' in u {
      if Clean(u) { ReadEscapedClean(u); }
      if ReadUri(u) == Some(u) { ReadEscapedShrinks(u); }
    } else {
      if Clean(u) { ReadClean(u, true); }
      if ReadUri(u) == Some(u) { ReadShrinks(u); }
    }
  }

  /** An accepted URI is clean exactly if it has no '&', and between the brackets of its host nothing else
      that is not clean either. */
  lemma CleanExactly(u: string)
    requires U.Accepted(u)
    ensures Clean(u) <==> '&' !in u && Clean(U.InBrackets(u))
  {
    U.OddInBrackets(u);
    U.InBracketsIn(u);
    assert forall c :: U.Outside(c) ==> c >= ' ' && c != '<';
  }

  /** What is written for what is read back is what was written before, exactly if some clean URI is written
      like that. */
  lemma WrittenAgainExactly(u: string)
    ensures (ReadUri(u).Some? && Quoted(ReadUri(u).value) == Quoted(u)) <==>
        exists w :: Clean(w) && Quoted(w) == Quoted(u)
  {
    if w :| Clean(w) && Quoted(w) == Quoted(u) {
      SameWritten(u, w);
      ReadsBackExactly(w);
    }
    if ReadUri(u).Some? && Quoted(ReadUri(u).value) == Quoted(u) {
      var w := ReadUri(u).value;
      SameWritten(u, w);
      ReadsBackExactly(w);
    }
  }

  lemma SameWritten(u: string, v: string)
    requires Quoted(u) == Quoted(v)
    ensures Written(u) == Written(v)
  {
    QuotedIsWritten(u);
    QuotedIsWritten(v);
    assert Quoted(u)[0] == Quoted(v)[0];
    BetweenQuotes([Quoted(u)[0]], Written(u), Written(v));
  }

  // ----- attribute values and text

  predicate Printable(s: string) { forall c :: c in s ==> c >= ' ' || Blank(c) }

  lemma EscapeExpanded(c: char, mode: Norm.NormMode, rest: string)
    requires |Norm.Escape(c, mode)| > 1 && (mode.NormAttr? || mode.NormText?)
    ensures var e := Norm.Escape(c, mode);
            Expanded(e + rest) == Some(([c], |e|)) && (e + rest)[|e|..] == rest && (e + rest)[0] == '&'
  {
    var e := Norm.Escape(c, mode);
    var x := e + rest;
    assert x[..|e|] == e && x[0] == e[0] && x[1] == e[1] && x[2] == e[2] && x[3] == e[3];
    if e == "&#x9;" || e == "&#xA;" || e == "&#xD;" {
      assert x[..3] == "&#x" && x[3..] == [e[3]] + (";" + rest);
      HexOne(e[3], rest);
    }
  }

  lemma HexOne(d: char, rest: string)
    requires H.HexDigit(d).Some?
    ensures H.HexLength([d] + (";" + rest)) == 1 && H.HexValue([d] + (";" + rest), 0) == H.HexDigit(d).value
  {
    var s := [d] + (";" + rest);
    assert s[1..] == ";" + rest && s[1] == ';';
  }

  lemma EscapeRead(c: char, mode: Norm.NormMode, rest: string)
    requires (mode.NormAttr? || mode.NormText?) && (c >= ' ' || Blank(c))
    ensures ReadData(Norm.Escape(c, mode) + rest, mode.NormAttr?) == Prepend([c], ReadData(rest, mode.NormAttr?))
  {
    var e := Norm.Escape(c, mode);
    if |e| > 1 {
      EscapeExpanded(c, mode, rest);
    } else {
      assert (e + rest)[0] == c && (e + rest)[1..] == rest;
      NoLineEnd(e + rest);
    }
  }

  lemma NoLineEnd(x: string)
    requires x != "" && x[0] != '\r'
    ensures BlankLength(x) == 1
  {
    assert |x| >= 2 ==> x[..2][0] == x[0];
    assert "\r\n"[0] == '\r';
  }

  /** Attribute values and character data are read back as they were. */
  lemma {:induction false} ReadNormalized(s: string, mode: Norm.NormMode)
    requires (mode.NormAttr? || mode.NormText?) && Printable(s)
    ensures ReadData(Norm.Normalized(s, mode), mode.NormAttr?) == Some(s)
  {
    if s != "" {
      assert s[0] in s && s == [s[0]] + s[1..];
      assert forall c :: c in s[1..] ==> c in s;
      ReadNormalized(s[1..], mode);
      EscapeRead(s[0], mode, Norm.Normalized(s[1..], mode));
    }
  }
}
