/** c14n.c: xmlC11NNormalizeString and what undoes it. */
module Normalize {
  import opened Strings

  datatype NormMode = NormAttr | NormComment | NormPI | NormText

  /** What one character becomes. */
  function Escape(c: char, mode: NormMode): string
  {
    if c == '<' && (mode.NormAttr? || mode.NormText?) then "&lt;"
    else if c == '>' && mode.NormText? then "&gt;"
    else if c == '&' && (mode.NormAttr? || mode.NormText?) then "&amp;"
    else if c == '\"' && mode.NormAttr? then "&quot;"
    else if c == '\t' && mode.NormAttr? then "&#x9;"
    else if c == '\n' && mode.NormAttr? then "&#xA;"
    else if c == '\r' then "&#xD;"
    else [c]
  }

  function Normalized(s: string, mode: NormMode): string
  {
    if s == [] then [] else Escape(s[0], mode) + Normalized(s[1..], mode)
  }

  lemma {:induction false} NormalizedConcat(a: string, b: string, mode: NormMode)
    ensures Normalized(a + b, mode) == Normalized(a, mode) + Normalized(b, mode)
  {
    if a == [] {
      assert a + b == b;
    } else {
      assert (a + b)[1..] == a[1..] + b;
      NormalizedConcat(a[1..], b, mode);
      Assoc(Escape(a[0], mode), Normalized(a[1..], mode), Normalized(b, mode));
    }
  }

  lemma NormalizedAppend(s: string, c: char, mode: NormMode)
    ensures Normalized(s + [c], mode) == Normalized(s, mode) + Escape(c, mode)
  {
    NormalizedConcat(s, [c], mode);
    assert Normalized([c], mode) == Escape(c, mode) + "";
  }

  const INITIAL_SIZE := 1000

  method Grow(buffer: array<char>) returns (bigger: array<char>)
    requires buffer.Length > 0
    ensures fresh(bigger) && bigger.Length == 2 * buffer.Length
    ensures bigger[..buffer.Length] == buffer[..]
  {
    bigger := new char[2 * buffer.Length](_ => '\0');
    for i := 0 to buffer.Length
      invariant forall k :: 0 <= k < i ==> bigger[k] == buffer[k]
    {
      bigger[i] := buffer[i];
    }
  }

  /** xmlC11NNormalizeString: every write, the final zero included, lands inside the buffer. */
  method NormalizeString(input: string, mode: NormMode) returns (result: string)
    ensures result == Normalized(input, mode)
  {
    var buffer := new char[INITIAL_SIZE](_ => '\0');
    var out := 0;
    var cur := 0;
    while cur < |input|
      invariant 0 <= cur <= |input|
      invariant buffer.Length >= INITIAL_SIZE && 0 <= out <= buffer.Length - 4
      invariant fresh(buffer)
      invariant buffer[..out] == Normalized(input[..cur], mode)
    {
      if out > buffer.Length - 10 {
        ghost var before := buffer[..];
        buffer := Grow(buffer);
        assert buffer[..out] == before[..out];
      }
      var escaped := Escape(input[cur], mode);
      Put(buffer, out, escaped);
      out := out + |escaped|;
      NormalizedAppend(input[..cur], input[cur], mode);
      assert input[..cur + 1] == input[..cur] + [input[cur]];
      cur := cur + 1;
    }
    buffer[out] := '\0';
    assert input[..cur] == input;
    result := buffer[..out];
  }

  // ----- reading the references back

  /** The character a reference at the head of `s` stands for, and its length. */
  function Reference(s: string): (r: (char, nat))
    requires s != []
    ensures 1 <= r.1 <= |s|
  {
    if StartsWith(s, "&lt;") then ('<', 4)
    else if StartsWith(s, "&gt;") then ('>', 4)
    else if StartsWith(s, "&amp;") then ('&', 5)
    else if StartsWith(s, "&quot;") then ('\"', 6)
    else if StartsWith(s, "&#x9;") then ('\t', 5)
    else if StartsWith(s, "&#xA;") then ('\n', 5)
    else if StartsWith(s, "&#xD;") then ('\r', 5)
    else (s[0], 1)
  }

  function Unescaped(s: string): string
    decreases |s|
  {
    if s == [] then [] else
      var (c, n) := Reference(s);
      [c] + Unescaped(s[n..])
  }

  lemma ReferenceOfEscape(c: char, mode: NormMode, rest: string)
    requires mode.NormAttr? || mode.NormText?
    ensures Reference(Escape(c, mode) + rest) == (c, |Escape(c, mode)|)
  {
    var e := Escape(c, mode);
    var s := e + rest;
    assert s[..|e|] == e;
    if e == [c] {
      assert s[0] == c && c != '&';
    } else {
      assert s[0] == e[0] && s[1] == e[1] && s[2] == e[2] && s[3] == e[3];
    }
  }

  /** Reading the references back gives the original text, in the two modes that escape '&'. */
  lemma {:induction false} UnescapedNormalized(s: string, mode: NormMode)
    requires mode.NormAttr? || mode.NormText?
    ensures Unescaped(Normalized(s, mode)) == s
  {
    if s != [] {
      var rest := Normalized(s[1..], mode);
      ReferenceOfEscape(s[0], mode, rest);
      var e := Escape(s[0], mode);
      assert (e + rest)[|e|..] == rest;
      UnescapedNormalized(s[1..], mode);
    }
  }

  lemma NormalizeInjective(s: string, t: string, mode: NormMode)
    requires mode.NormAttr? || mode.NormText?
    ensures Normalized(s, mode) == Normalized(t, mode) <==> s == t
  {
    UnescapedNormalized(s, mode);
    UnescapedNormalized(t, mode);
  }

  predicate Raw(mode: NormMode) { mode.NormComment? || mode.NormPI? }

  const CR_REF := "&#xD;"

  predicate CrRefAt(s: string, i: nat)
  {
    i + |CR_REF| <= |s| && s[i..i + |CR_REF|] == CR_REF
  }

  lemma {:induction false} RawText(s: string, mode: NormMode)
    requires Raw(mode)
    ensures '\r' !in Normalized(s, mode)
    ensures '\r' !in s ==> Normalized(s, mode) == s
  {
    if s != [] {
      RawText(s[1..], mode);
      assert s == [s[0]] + s[1..];
      assert '\r' !in CR_REF;
    }
  }

  lemma RawAround(a: string, b: string, mode: NormMode)
    requires Raw(mode)
    ensures Normalized(a + "\r" + b, mode) == Normalized(a, mode) + CR_REF + Normalized(b, mode)
  {
    NormalizedConcat(a + "\r", b, mode);
    NormalizedAppend(a, '\r', mode);
  }

  lemma OtherComment(s: string, mode: NormMode) returns (t: string)
    requires Raw(mode) && ('\r' in s || exists i: nat :: CrRefAt(s, i))
    ensures t != s && Normalized(t, mode) == Normalized(s, mode)
  {
    RawText(s, mode);
    if '\r' in s {
      t := Normalized(s, mode);
      RawText(t, mode);
    } else {
      var i: nat :| CrRefAt(s, i);
      var a, b := s[..i], s[i + |CR_REF|..];
      assert s == a + CR_REF + b;
      t := a + "\r" + b;
      assert t[i] == '\r';
      RawAround(a, b, mode);
      RawText(a, mode);
      RawText(b, mode);
    }
  }

  lemma ReturnEscaped(t: string, mode: NormMode)
    requires Raw(mode) && '\r' in t
    ensures exists i: nat :: CrRefAt(Normalized(t, mode), i)
  {
    var i :| 0 <= i < |t| && t[i] == '\r';
    var a, b := t[..i], t[i + 1..];
    assert t == a + "\r" + b;
    RawAround(a, b, mode);
    RefThere(Normalized(a, mode), Normalized(b, mode));
    assert CrRefAt(Normalized(t, mode), |Normalized(a, mode)|);
  }

  lemma RefThere(x: string, y: string)
    ensures CrRefAt(x + CR_REF + y, |x|)
  {
  }

  lemma OnlyComment(s: string, t: string, mode: NormMode)
    requires Raw(mode) && '\r' !in s && Normalized(t, mode) == Normalized(s, mode)
    requires forall i: nat :: !CrRefAt(s, i)
    ensures t == s
  {
    RawText(s, mode);
    RawText(t, mode);
    if '\r' in t { ReturnEscaped(t, mode); }
  }

  /** In the modes that leave '&' raw a text shares its normal form exactly if it holds a carriage return or the
      reference for one. */
  lemma SharedExactly(s: string, mode: NormMode)
    requires Raw(mode)
    ensures (exists t :: t != s && Normalized(t, mode) == Normalized(s, mode)) <==>
              '\r' in s || exists i: nat :: CrRefAt(s, i)
  {
    if '\r' in s || exists i: nat :: CrRefAt(s, i) {
      var t := OtherComment(s, mode);
    } else {
      forall t | Normalized(t, mode) == Normalized(s, mode) ensures t == s { OnlyComment(s, t, mode); }
    }
  }

  predicate RawSpecial(c: char, mode: NormMode)
  {
    |Escape(c, mode)| > 1
  }

  /** A reference has no special character but its '&'. */
  lemma EscapeInside(c: char, mode: NormMode, k: nat)
    requires k < |Escape(c, mode)|
    ensures RawSpecial(Escape(c, mode)[k], mode) ==>
        k == 0 && Escape(c, mode)[0] == '&' && (mode.NormAttr? || mode.NormText?)
  {
  }

  /** No character the mode escapes survives in the output, except the '&' that opens a reference. */
  lemma {:induction false} NoRawSpecials(s: string, mode: NormMode, k: nat)
    requires k < |Normalized(s, mode)|
    ensures RawSpecial(Normalized(s, mode)[k], mode) ==>
              Normalized(s, mode)[k] == '&' && Reference(Normalized(s, mode)[k..]).1 > 1
  {
    var e := Escape(s[0], mode);
    var rest := Normalized(s[1..], mode);
    var all := Normalized(s, mode);
    assert all == e + rest;
    if k >= |e| {
      assert all[k..] == rest[k - |e|..];
      NoRawSpecials(s[1..], mode, k - |e|);
    } else {
      EscapeInside(s[0], mode, k);
      if k == 0 && (mode.NormAttr? || mode.NormText?) {
        assert all[0..] == all;
        ReferenceOfEscape(s[0], mode, rest);
      }
    }
  }

  // ----- the characters themselves

  predicate MustGo(c: char, mode: NormMode)
  {
    c == '\r' || (mode.NormText? && c in "<>") || (mode.NormAttr? && c in "<\"\t\n")
  }

  lemma EscapeLeaves(x: char, mode: NormMode)
    ensures forall c :: c in Escape(x, mode) ==> !MustGo(c, mode)
  {
  }

  /** Section 2.3 of Canonical XML 1.0: no '<', '>' or carriage return is left in text, no '<', quote, tab or
      line end in an attribute value, and no carriage return anywhere. */
  lemma {:induction false} NoneLeft(s: string, mode: NormMode)
    ensures forall c :: c in Normalized(s, mode) ==> !MustGo(c, mode)
  {
    if s != [] {
      NoneLeft(s[1..], mode);
      EscapeLeaves(s[0], mode);
      var e, rest := Escape(s[0], mode), Normalized(s[1..], mode);
      assert forall c :: c in e + rest ==> c in e || c in rest;
    }
  }

  /** Everything else goes out as it is. */
  lemma {:induction false} NothingElse(s: string, mode: NormMode)
    requires forall c :: c in s ==> !MustGo(c, mode) && (c == '&' ==> mode.NormComment? || mode.NormPI?)
    ensures Normalized(s, mode) == s
  {
    if s != [] {
      assert s == [s[0]] + s[1..] && s[0] in s;
      assert forall c :: c in s[1..] ==> c in s;
      NothingElse(s[1..], mode);
    }
  }
}
