/** xmlBufWriteQuotedString (buf.c 1070-1112): which URIs can be told from what is written for them. */
module QuotedUri {
  import opened Strings
  import opened Canonical
  import opened UriSyntax

  const REF := "&quot;"

  predicate RefAt(u: string, i: nat)
  {
    i + |REF| <= |u| && u[i..i + |REF|] == REF
  }

  ghost predicate HasRef(u: string)
  {
    exists i: nat :: RefAt(u, i)
  }

  /** With both kinds of quotes in it a URI is written like the one that has the reference instead. */
  ghost predicate Ambiguous(u: string)
  {
    '\'' in u && ('\"' in u || HasRef(u))
  }

  lemma {:induction false} EscapeAppend(a: string, b: string)
    ensures EscapeQuotes(a + b) == EscapeQuotes(a) + EscapeQuotes(b)
  {
    if a == [] {
      assert a + b == b;
    } else {
      assert (a + b)[1..] == a[1..] + b;
      EscapeAppend(a[1..], b);
      Assoc(if a[0] == '\"' then REF else [a[0]], EscapeQuotes(a[1..]), EscapeQuotes(b));
    }
  }

  lemma {:induction false} EscapeChars(s: string)
    ensures '\"' !in EscapeQuotes(s)
    ensures '\'' in EscapeQuotes(s) <==> '\'' in s
    ensures '\"' !in s ==> EscapeQuotes(s) == s
  {
    if s != [] {
      EscapeChars(s[1..]);
      assert s == [s[0]] + s[1..];
      assert '\"' !in REF && '\'' !in REF;
    }
  }

  lemma EscapeAt(s: string, i: nat)
    requires i < |s| && s[i] == '\"'
    ensures EscapeQuotes(s) == EscapeQuotes(s[..i]) + REF + EscapeQuotes(s[i + 1..])
  {
    assert s == s[..i] + ("\"" + s[i + 1..]);
    EscapeAppend(s[..i], "\"" + s[i + 1..]);
    assert ("\"" + s[i + 1..])[1..] == s[i + 1..];
    Assoc(EscapeQuotes(s[..i]), REF, EscapeQuotes(s[i + 1..]));
  }

  lemma EscapedHasRef(v: string)
    requires '\"' in v
    ensures HasRef(EscapeQuotes(v))
  {
    var i :| 0 <= i < |v| && v[i] == '\"';
    EscapeAt(v, i);
    assert RefAt(EscapeQuotes(v), |EscapeQuotes(v[..i])|);
  }

  lemma BetweenQuotes(q: string, a: string, b: string)
    ensures q + a + q == q + b + q <==> a == b
  {
    if q + a + q == q + b + q {
      assert |a| == |b|;
      assert a == (q + a + q)[|q|..|q| + |a|] && b == (q + b + q)[|q|..|q| + |b|];
    }
  }

  /** Another URI that is written alike. */
  lemma Twin(u: string) returns (v: string)
    requires Ambiguous(u)
    ensures v != u && Quoted(v) == Quoted(u)
  {
    EscapeChars(u);
    if '\"' in u {
      v := EscapeQuotes(u);
    } else {
      var i: nat :| RefAt(u, i);
      v := u[..i] + "\"" + u[i + |REF|..];
      assert u == u[..i] + REF + u[i + |REF|..];
      Unescape(u[..i], u[i + |REF|..]);
    }
  }

  lemma Unescape(a: string, b: string)
    requires '\"' !in a && '\"' !in b
    ensures EscapeQuotes(a + "\"" + b) == a + REF + b && '\"' in a + "\"" + b
    ensures '\'' in a + REF + b ==> '\'' in a + "\"" + b
  {
    var v := a + "\"" + b;
    assert v[|a|] == '\"' && v[..|a|] == a && v[|a| + 1..] == b;
    EscapeAt(v, |a|);
    EscapeChars(a);
    EscapeChars(b);
    assert '\'' !in REF;
  }

  lemma Unique(u: string, v: string)
    requires !Ambiguous(u) && Quoted(v) == Quoted(u)
    ensures v == u
  {
    BetweenQuotes("\"", u, v);
    BetweenQuotes("\'", u, v);
    BetweenQuotes("\"", u, EscapeQuotes(v));
    EscapeChars(v);
    assert Quoted(u)[0] == Quoted(v)[0];
    if '\"' in v { EscapedHasRef(v); }
  }

  /** What is written for a URI is written for no other exactly if the URI does not have both kinds of
      quotes, nor an apostrophe and the reference for the other. */
  lemma QuotedExactly(u: string)
    ensures (exists v :: v != u && Quoted(v) == Quoted(u)) <==> Ambiguous(u)
  {
    if Ambiguous(u) {
      var v := Twin(u);
    } else {
      forall v | Quoted(v) == Quoted(u) ensures v == u { Unique(u, v); }
    }
  }

  // ----- URIs that the canonicaliser accepts

  /** Another URI that is accepted is written alike. */
  ghost predicate Shared(u: string)
  {
    exists v :: v != u && Accepted(v) && Quoted(v) == Quoted(u)
  }

  lemma EscapeNothing(a: string)
    requires AllOutside(a)
    ensures EscapeQuotes(a) == a
  {
    EscapeChars(a);
  }

  lemma EscapeKept(a: string, b: string)
    requires AllOutside(a)
    ensures EscapeQuotes(a + b) == a + EscapeQuotes(b)
  {
    EscapeAppend(a, b);
    EscapeNothing(a);
  }

  lemma {:induction false} EscapeBrackets(s: string)
    requires ']' !in s
    ensures ']' !in EscapeQuotes(s)
  {
    if s != [] {
      EscapeBrackets(s[1..]);
      assert ']' !in REF;
    }
  }

  /** In a URI only what stands between brackets can need escaping. */
  lemma EscapeSpelt(b: Bracketed)
    requires Correct(b) && AllOutside(b.scheme) && AllOutside(b.user) && AllOutside(b.rest)
    ensures var c := b.(inner := EscapeQuotes(b.inner)); Correct(c) && EscapeQuotes(Spelt(b)) == Spelt(c)
  {
    EscapeBrackets(b.inner);
    EscapeNothing("]" + b.rest);
    EscapeAppend(b.inner, "]" + b.rest);
    var t := b.inner + ("]" + b.rest);
    EscapeKept("[", t);
    EscapeKept(b.user, "[" + t);
    EscapeKept("//", b.user + ("[" + t));
    EscapeKept(":", "//" + (b.user + ("[" + t)));
    EscapeKept(b.scheme, ":" + ("//" + (b.user + ("[" + t))));
  }

  lemma InBracketForm(u: string) returns (b: Bracketed)
    requires Accepted(u) && InBrackets(u) != ""
    ensures Correct(b) && Spelt(b) == u && InBrackets(u) == b.inner
    ensures AllOutside(b.scheme) && AllOutside(b.user) && AllOutside(b.rest)
  {
    b := Decomposed(u);
    BracketFound(b);
  }

  lemma SharedTwin(u: string) returns (v: string)
    requires Accepted(u) && '\'' in u && ('\"' in InBrackets(u) || HasRef(InBrackets(u)))
    ensures v != u && Accepted(v) && Quoted(v) == Quoted(u)
  {
    var b := InBracketForm(u);
    EscapeChars(u);
    if '\"' in b.inner {
      EscapeSpelt(b);
      v := EscapeQuotes(u);
      BracketFound(b.(inner := EscapeQuotes(b.inner)));
      SpeltHas(b);
    } else {
      OddInBrackets(u);
      var inner := Unescaped(b.inner);
      var c := b.(inner := inner);
      v := Spelt(c);
      BracketFound(c);
      EscapeSpelt(c);
      EscapeChars(v);
      SpeltHas(c);
    }
  }

  lemma SpeltHas(b: Bracketed)
    ensures forall c :: c in b.inner ==> c in Spelt(b)
  {
    assert forall c :: c in b.inner ==> c in "[" + (b.inner + ("]" + b.rest));
  }

  /** One reference taken back. */
  lemma Unescaped(s: string) returns (t: string)
    requires HasRef(s) && '\"' !in s && ']' !in s
    ensures EscapeQuotes(t) == s && '\"' in t && ']' !in t
  {
    var i: nat :| RefAt(s, i);
    var x, y := s[..i], s[i + |REF|..];
    assert s == x + REF + y;
    t := x + "\"" + y;
    Unescape(x, y);
  }

  lemma QuoteInBrackets(u: string)
    requires Accepted(u)
    ensures '\"' in u ==> '\"' in InBrackets(u) && InBrackets(u) != ""
  {
    OddInBrackets(u);
  }

  lemma SharedForm(u: string, v: string)
    requires Accepted(u) && Accepted(v) && v != u && Quoted(v) == Quoted(u)
    ensures '\'' in u && ('\"' in InBrackets(u) || HasRef(InBrackets(u)))
  {
    assert Ambiguous(u) by { if !Ambiguous(u) { Unique(u, v); } }
    if '\"' in u {
      QuoteInBrackets(u);
    } else {
      EscapedTwin(u, v);
      QuoteInBrackets(v);
      var b := InBracketForm(v);
      EscapedInBrackets(b);
    }
  }

  lemma EscapedInBrackets(b: Bracketed)
    requires Correct(b) && AllOutside(b.scheme) && AllOutside(b.user) && AllOutside(b.rest) && '\"' in b.inner
    ensures HasRef(InBrackets(EscapeQuotes(Spelt(b))))
  {
    var c := b.(inner := EscapeQuotes(b.inner));
    assert Correct(c) && EscapeQuotes(Spelt(b)) == Spelt(c) by { EscapeSpelt(b); }
    assert InBrackets(Spelt(c)) == c.inner by { BracketFound(c); }
    EscapedHasRef(b.inner);
  }

  lemma EscapedTwin(u: string, v: string)
    requires '\"' !in u && v != u && Quoted(v) == Quoted(u)
    ensures '\"' in v && u == EscapeQuotes(v)
  {
    BetweenQuotes("\"", u, v);
    BetweenQuotes("\"", u, EscapeQuotes(v));
    assert Quoted(u)[0] == Quoted(v)[0];
  }

  /** Two accepted URIs are written alike only if the quote, or the reference for it, stands in the
      brackets of the host, and there is an apostrophe somewhere. */
  lemma SharedExactly(u: string)
    requires Accepted(u)
    ensures Shared(u) <==> '\'' in u && ('\"' in InBrackets(u) || HasRef(InBrackets(u)))
  {
    if '\'' in u && ('\"' in InBrackets(u) || HasRef(InBrackets(u))) {
      var v := SharedTwin(u);
    }
    if v :| v != u && Accepted(v) && Quoted(v) == Quoted(u) {
      SharedForm(u, v);
    }
  }

  /** Such a pair: both pass, and both are written in the same way. */
  lemma SharedPair()
    ensures var u, v := "http://[\"']", "http://[&quot;']";
            u != v && Accepted(u) && Accepted(v) && Quoted(u) == Quoted(v)
  {
    var b := Bracketed("http", "", "\"'", "");
    var c := b.(inner := "&quot;'");
    HttpOk();
    BracketFound(b);
    BracketFound(c);
    PairSpelt();
    EscapeSpelt(b);
    InnerEscaped();
    EscapeChars(Spelt(b));
    SpeltHas(b);
    assert '\"' in b.inner && '\'' in b.inner;
  }

  lemma InnerEscaped()
    ensures EscapeQuotes("\"'") == "&quot;'"
  {
    assert "\"'"[1..] == "'" && "'"[1..] == "";
    assert EscapeQuotes("'") == "'";
  }

  lemma HttpSpelt(inner: string)
    ensures Spelt(Bracketed("http", "", inner, "")) == "http://[" + inner + "]"
  {
    assert "" + ("[" + (inner + ("]" + ""))) == "[" + inner + "]";
    assert "http" + (":" + ("//" + ("[" + inner + "]"))) == "http://[" + inner + "]";
  }

  lemma PairSpelt()
    ensures Spelt(Bracketed("http", "", "\"'", "")) == "http://[\"']"
    ensures Spelt(Bracketed("http", "", "&quot;'", "")) == "http://[&quot;']"
  {
    HttpSpelt("\"'");
    HttpSpelt("&quot;'");
    assert "http://[" + "\"'" + "]" == "http://[\"']";
    assert "http://[" + "&quot;'" + "]" == "http://[&quot;']";
  }

  lemma HttpOk()
    ensures SchemeOk("http") && RestOk("")
  {
    assert "http"[1..] == "ttp" && "ttp"[1..] == "tp" && "tp"[1..] == "p" && "p"[1..] == "";
    assert SkipScheme("p") == "" && SkipScheme("tp") == "" && SkipScheme("ttp") == "";
  }
}
