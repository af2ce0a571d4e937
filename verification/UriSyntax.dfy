/** uri.c: the RFC 3986 parser, as far as the canonicaliser asks it: which namespace URIs it takes for
    absolute.  Each function returns what is left of the string behind the part it reads. */
module UriSyntax {
  import opened Strings

  predicate IsAlpha(c: char) { 'a' <= c <= 'z' || 'A' <= c <= 'Z' }
  predicate IsDigit(c: char) { '0' <= c <= '9' }
  predicate IsHex(c: char) { IsDigit(c) || 'a' <= c <= 'f' || 'A' <= c <= 'F' }

  const SUB_DELIMS := "!$&()*+,;='"

  predicate Plain(c: char) { IsAlpha(c) || IsDigit(c) || c in "-._~" || c in SUB_DELIMS }

  predicate Encoded(s: string) { |s| >= 3 && s[0] == '%' && IsHex(s[1]) && IsHex(s[2]) }

  predicate At(s: string, c: char) { s != "" && s[0] == c }

  // What may stand, beside plain and encoded characters, in a host name, in the user information, in a
  // path, in a query and in a fragment.
  const IN_NAME := ""
  const IN_USER := ":"
  const IN_PATH := ":@"
  const IN_QUERY := ":@/?"
  const IN_FRAGMENT := ":@/?[]"

  function Skip(s: string, extra: string): (r: string)
    ensures |r| <= |s|
  {
    if Encoded(s) then Skip(s[3..], extra)
    else if s != "" && (Plain(s[0]) || s[0] in extra) then Skip(s[1..], extra)
    else s
  }

  predicate InScheme(c: char) { IsAlpha(c) || IsDigit(c) || c in "+-." }

  function SkipScheme(s: string): (r: string)
    ensures |r| <= |s|
  {
    if s != "" && InScheme(s[0]) then SkipScheme(s[1..]) else s
  }

  function SkipDigits(s: string): (r: string)
    ensures |r| <= |s|
  {
    if s != "" && IsDigit(s[0]) then SkipDigits(s[1..]) else s
  }

  /** From the closing bracket on. */
  function SkipBracket(s: string): (r: string)
    ensures |r| <= |s|
  {
    if s == "" || s[0] == ']' then s else SkipBracket(s[1..])
  }

  /** What was read to get from `s` to its suffix `r`. */
  function Read(s: string, r: string): string
    requires |r| <= |s|
  {
    s[..|s| - |r|]
  }

  lemma ReadHead(s: string, r: string)
    requires |r| < |s|
    ensures Read(s, r) == [s[0]] + Read(s[1..], r)
  {
  }

  lemma ReadFront(a: string, r: string)
    ensures Read(a + r, r) == a
  {
  }

  lemma Grouped(a: string, b: string, c: string, r: string)
    ensures a + (b + (c + r)) == a + b + c + r
  {
  }

  // ----- xmlParse3986DecOctet and the attempt at an IPv4 address

  predicate DigitAt(s: string, i: nat) { i < |s| && IsDigit(s[i]) }
  predicate FromAt(s: string, i: nat, lo: char, hi: char) { i < |s| && lo <= s[i] <= hi }

  function DecOctet(s: string): (r: Option<string>)
    ensures r.Some? ==> |r.value| < |s|
  {
    if !DigitAt(s, 0) then None
    else if !DigitAt(s, 1) then Some(s[1..])
    else if s[0] != '0' && !DigitAt(s, 2) then Some(s[2..])
    else if s[0] == '1' && DigitAt(s, 2) then Some(s[3..])
    else if s[0] == '2' && FromAt(s, 1, '0', '4') && DigitAt(s, 2) then Some(s[3..])
    else if s[0] == '2' && s[1] == '5' && |s| > 2 && s[2] >= '0' then Some(s[3..])
    else None
  }

  /** Another number behind a dot, which is stepped over only if `step` says so. */
  function NextOctet(r: Option<string>, step: bool): (n: Option<string>)
    ensures n.Some? ==> r.Some? && |n.value| < |r.value|
  {
    if r.None? || !At(r.value, '.') then None else DecOctet(if step then r.value[1..] else r.value)
  }

  /** The code steps over the first dot only. */
  function Ipv4(s: string): (r: Option<string>)
    ensures r.Some? ==> |r.value| <= |s|
  {
    NextOctet(NextOctet(NextOctet(DecOctet(s), true), false), false)
  }

  /** So nothing is ever taken for an IPv4 address, and all of them are read as names. */
  lemma NeverIpv4(s: string)
    ensures Ipv4(s).None?
  {
    var b := NextOctet(DecOctet(s), true);
    assert b.Some? && At(b.value, '.') ==> !DigitAt(b.value, 0);
  }

  // ----- the parts

  /** xmlParse3986Host */
  function SkipHost(s: string): (r: Option<string>)
    ensures r.Some? ==> |r.value| <= |s|
  {
    if At(s, '[') then
      var r := SkipBracket(s[1..]);
      if r == "" then None else Some(r[1..])
    else if Ipv4(s).Some? then Ipv4(s)
    else Some(Skip(s, IN_NAME))
  }

  /** Behind the user information, if there is any. */
  function SkipUser(s: string): (r: string)
    ensures |r| <= |s|
  {
    var r := Skip(s, IN_USER);
    if At(r, '@') then r[1..] else s
  }

  function SkipPort(s: string): (r: Option<string>)
    ensures r.Some? ==> |r.value| <= |s|
  {
    if !At(s, ':') then Some(s)
    else if DigitAt(s, 1) then Some(SkipDigits(s[1..]))
    else None
  }

  /** xmlParse3986PathAbEmpty */
  function SkipPath(s: string): (r: string)
    ensures |r| <= |s|
    decreases |s|
  {
    if At(s, '/') then SkipPath(Skip(s[1..], IN_PATH)) else s
  }

  /** xmlParse3986PathAbsolute and xmlParse3986PathRootless, and no path at all. */
  function SkipLocalPath(s: string): (r: string)
    ensures |r| <= |s|
  {
    var t := if At(s, '/') then s[1..] else s;
    var r := Skip(t, IN_PATH);
    if r == t then t else SkipPath(r)
  }

  /** Nothing but a query and a fragment are left. */
  predicate EndsUri(s: string)
  {
    var q := if At(s, '?') then Skip(s[1..], IN_QUERY) else s;
    var f := if At(q, '#') then Skip(q[1..], IN_FRAGMENT) else q;
    f == ""
  }

  datatype Parts = Parts(scheme: string, host: string)

  /** Scheme and host of what stands behind the scheme's colon. */
  function HierPart(scheme: string, s: string): Option<Parts>
  {
    if StartsWith(s, "//") then
      var h := SkipUser(s[2..]);
      var after := SkipHost(h);
      if after.None? then None
      else
        var rest := SkipPort(after.value);
        if rest.None? || !EndsUri(SkipPath(rest.value)) then None
        else Some(Parts(scheme, Read(h, after.value)))
    else if EndsUri(SkipLocalPath(s)) then Some(Parts(scheme, ""))
    else None
  }

  /** xmlParse3986URI */
  function ParseUri(u: string): Option<Parts>
  {
    if u == "" || !IsAlpha(u[0]) then None
    else
      var r := SkipScheme(u[1..]);
      if At(r, ':') then HierPart(Read(u, r), r[1..]) else None
  }

  function Lower(s: string): string
  {
    if s == "" then ""
    else [if 'A' <= s[0] <= 'Z' then (s[0] as int + 32) as char else s[0]] + Lower(s[1..])
  }

  /** The host is unescaped first, and ends at a zero byte then. */
  predicate NoServer(host: string) { host == "" || StartsWith(host, "%00") }

  /** What xmlC14NCheckForRelativeNamespaces lets pass.  A reference that is no URI has no scheme. */
  predicate Accepted(u: string)
  {
    u != "" ==>
      && ParseUri(u).Some?
      && (Lower(ParseUri(u).value.scheme) in ["urn", "dav"] || !NoServer(ParseUri(u).value.host))
  }

  // ----- the characters of accepted URIs

  /** What the parser reads outside the brackets of a host. */
  predicate Outside(c: char) { Plain(c) || c in ":@/?#[]%" }

  predicate AllOutside(a: string) { forall c :: c in a ==> Outside(c) }

  /** `r` is the end of `s`, and only such characters come before it. */
  predicate Reads(s: string, r: string)
  {
    |r| <= |s| && s == Read(s, r) + r && AllOutside(Read(s, r))
  }

  lemma ReadsOn(s: string, r: string, q: string)
    requires Reads(s, r) && Reads(r, q)
    ensures Reads(s, q)
  {
    assert Read(s, q) == Read(s, r) + Read(r, q);
    Assoc(Read(s, r), Read(r, q), q);
  }

  lemma ReadsSome(s: string, n: nat)
    requires n <= |s| && AllOutside(s[..n])
    ensures Reads(s, s[n..])
  {
  }

  predicate Extra(extra: string) { forall c :: c in extra ==> Outside(c) && c != '%' }

  lemma {:induction false} SkipReads(s: string, extra: string)
    requires Extra(extra)
    ensures Reads(s, Skip(s, extra))
    decreases |s|
  {
    if Encoded(s) {
      SkipReads(s[3..], extra);
      ReadsSome(s, 3);
      ReadsOn(s, s[3..], Skip(s, extra));
    } else if s != "" && (Plain(s[0]) || s[0] in extra) {
      SkipReads(s[1..], extra);
      ReadsSome(s, 1);
      ReadsOn(s, s[1..], Skip(s, extra));
    }
  }

  lemma {:induction false} SkipSchemeReads(s: string)
    ensures Reads(s, SkipScheme(s))
  {
    if s != "" && InScheme(s[0]) {
      SkipSchemeReads(s[1..]);
      ReadsSome(s, 1);
      ReadsOn(s, s[1..], SkipScheme(s));
    }
  }

  lemma {:induction false} SkipDigitsReads(s: string)
    ensures Reads(s, SkipDigits(s))
  {
    if s != "" && IsDigit(s[0]) {
      SkipDigitsReads(s[1..]);
      ReadsSome(s, 1);
      ReadsOn(s, s[1..], SkipDigits(s));
    }
  }

  lemma {:induction false} SkipPathReads(s: string)
    ensures Reads(s, SkipPath(s))
    decreases |s|
  {
    if At(s, '/') {
      SkipReads(s[1..], IN_PATH);
      SkipPathReads(Skip(s[1..], IN_PATH));
      ReadsSome(s, 1);
      ReadsOn(s, s[1..], Skip(s[1..], IN_PATH));
      ReadsOn(s, Skip(s[1..], IN_PATH), SkipPath(s));
    }
  }

  lemma SkipLocalPathReads(s: string)
    ensures Reads(s, SkipLocalPath(s))
  {
    var t := if At(s, '/') then s[1..] else s;
    assert Reads(s, t) by { if At(s, '/') { ReadsSome(s, 1); } else { ReadsSome(s, 0); } }
    SkipReads(t, IN_PATH);
    SkipPathReads(Skip(t, IN_PATH));
    ReadsOn(s, t, Skip(t, IN_PATH));
    ReadsOn(s, Skip(t, IN_PATH), SkipPath(Skip(t, IN_PATH)));
  }

  lemma SkipPortReads(s: string)
    requires SkipPort(s).Some?
    ensures Reads(s, SkipPort(s).value)
  {
    ReadsSome(s, 0);
    if At(s, ':') {
      ReadsSome(s, 1);
      SkipDigitsReads(s[1..]);
      ReadsOn(s, s[1..], SkipDigits(s[1..]));
    }
  }

  lemma EndOutside(s: string)
    requires EndsUri(s)
    ensures AllOutside(s)
  {
    var q := if At(s, '?') then Skip(s[1..], IN_QUERY) else s;
    assert Reads(s, q) by {
      ReadsSome(s, 0);
      if At(s, '?') {
        SkipReads(s[1..], IN_QUERY);
        ReadsSome(s, 1);
        ReadsOn(s, s[1..], q);
      }
    }
    assert Reads(q, "") by {
      ReadsSome(q, 0);
      if At(q, '#') {
        SkipReads(q[1..], IN_FRAGMENT);
        ReadsSome(q, 1);
        ReadsOn(q, q[1..], "");
      }
    }
    ReadsOn(s, q, "");
    assert Read(s, "") == s;
  }

  lemma EndReads(s: string, r: string)
    requires Reads(s, r) && EndsUri(r)
    ensures AllOutside(s)
  {
    EndOutside(r);
    assert forall c :: c in s ==> c in Read(s, r) || c in r;
  }

  // ----- URIs with a bracketed host

  /** scheme "://" [ user "@" ] "[" inner "]" rest, `user` with its sign. */
  datatype Bracketed = Bracketed(scheme: string, user: string, inner: string, rest: string)

  predicate SchemeOk(s: string) { s != "" && IsAlpha(s[0]) && SkipScheme(s[1..]) == "" }

  predicate UserOk(s: string)
  {
    s != "" ==> s[|s| - 1] == '@' && Skip(s[..|s| - 1], IN_USER) == ""
  }

  /** What may follow the host: port, path, query, fragment. */
  predicate RestOk(s: string) { SkipPort(s).Some? && EndsUri(SkipPath(SkipPort(s).value)) }

  predicate Correct(b: Bracketed)
  {
    SchemeOk(b.scheme) && UserOk(b.user) && ']' !in b.inner && RestOk(b.rest)
  }

  function Spelt(b: Bracketed): string
  {
    b.scheme + (":" + ("//" + (b.user + ("[" + (b.inner + ("]" + b.rest))))))
  }

  lemma {:induction false} SkipJoined(a: string, r: string, extra: string)
    requires Skip(a, extra) == "" && Skip(r, extra) == r && '%' !in extra
    ensures Skip(a + r, extra) == r
    decreases |a|
  {
    if a == "" {
      assert a + r == r;
    } else if Encoded(a) {
      assert (a + r)[3..] == a[3..] + r;
      SkipJoined(a[3..], r, extra);
    } else {
      assert a[0] != '%' && (a + r)[1..] == a[1..] + r;
      SkipJoined(a[1..], r, extra);
    }
  }

  lemma {:induction false} SkipSchemeJoined(a: string, r: string)
    requires SkipScheme(a) == "" && (r == "" || !InScheme(r[0]))
    ensures SkipScheme(a + r) == r
    decreases |a|
  {
    if a == "" {
      assert a + r == r;
    } else {
      assert (a + r)[1..] == a[1..] + r;
      SkipSchemeJoined(a[1..], r);
    }
  }

  lemma {:induction false} SkipBracketJoined(a: string, r: string)
    requires ']' !in a && At(r, ']')
    ensures SkipBracket(a + r) == r
    decreases |a|
  {
    if a == "" {
      assert a + r == r;
    } else {
      assert (a + r)[1..] == a[1..] + r;
      SkipBracketJoined(a[1..], r);
    }
  }

  lemma BracketHost(inner: string, rest: string)
    requires ']' !in inner
    ensures var h := "[" + (inner + ("]" + rest));
            SkipHost(h) == Some(rest) && Read(h, rest) == "[" + inner + "]"
  {
    var h := "[" + (inner + ("]" + rest));
    assert h[1..] == inner + ("]" + rest);
    SkipBracketJoined(inner, "]" + rest);
    assert ("]" + rest)[1..] == rest;
    Grouped("[", inner, "]", rest);
    ReadFront("[" + inner + "]", rest);
  }

  lemma UserSkipped(user: string, h: string)
    requires UserOk(user) && At(h, '[')
    ensures SkipUser(user + h) == h
  {
    assert Skip(h, IN_USER) == h;
    if user == "" {
      assert user + h == h;
    } else {
      var a := user[..|user| - 1];
      assert user + h == a + ("@" + h);
      assert Skip("@" + h, IN_USER) == "@" + h;
      SkipJoined(a, "@" + h, IN_USER);
      assert ("@" + h)[1..] == h;
    }
  }

  /** It is read as it was put together, whatever stands between the brackets. */
  lemma BracketedParsed(b: Bracketed)
    requires Correct(b)
    ensures ParseUri(Spelt(b)) == Some(Parts(b.scheme, "[" + b.inner + "]"))
  {
    var u := Spelt(b);
    var h := "[" + (b.inner + ("]" + b.rest));
    var s := "//" + (b.user + h);
    assert u[1..] == b.scheme[1..] + (":" + s);
    SkipSchemeJoined(b.scheme[1..], ":" + s);
    assert (":" + s)[1..] == s;
    assert Read(u, ":" + s) == b.scheme;
    assert s[..2] == "//" && s[2..] == b.user + h;
    UserSkipped(b.user, h);
    BracketHost(b.inner, b.rest);
  }

  lemma SkipThree(e: string, b: string, extra: string)
    requires |e| == 3 && Encoded(e)
    ensures Skip(e + b, extra) == Skip(b, extra)
  {
    assert (e + b)[3..] == b;
  }

  lemma SkipOne(c: char, b: string, extra: string)
    requires c != '%' && (Plain(c) || c in extra)
    ensures Skip([c] + b, extra) == Skip(b, extra)
  {
    assert ([c] + b)[1..] == b;
  }

  lemma ReadThree(s: string, r: string)
    requires |r| + 3 <= |s|
    ensures Read(s, r) == s[..3] + Read(s[3..], r)
  {
  }

  lemma {:induction false} ReadSkipped(s: string, extra: string)
    requires Extra(extra)
    ensures Skip(Read(s, Skip(s, extra)), extra) == ""
    decreases |s|
  {
    var r := Skip(s, extra);
    if Encoded(s) {
      ReadSkipped(s[3..], extra);
      ReadThree(s, r);
      SkipThree(s[..3], Read(s[3..], r), extra);
    } else if s != "" && (Plain(s[0]) || s[0] in extra) {
      ReadSkipped(s[1..], extra);
      ReadHead(s, r);
      SkipOne(s[0], Read(s[1..], r), extra);
    } else {
      assert Read(s, s) == "";
    }
  }

  lemma SkipSchemeOne(c: char, b: string)
    requires InScheme(c)
    ensures SkipScheme([c] + b) == SkipScheme(b)
  {
    assert ([c] + b)[1..] == b;
  }

  lemma {:induction false} ReadScheme(s: string)
    ensures SkipScheme(Read(s, SkipScheme(s))) == ""
  {
    var r := SkipScheme(s);
    if s != "" && InScheme(s[0]) {
      ReadScheme(s[1..]);
      ReadHead(s, r);
      SkipSchemeOne(s[0], Read(s[1..], r));
    } else {
      assert Read(s, s) == "";
    }
  }

  lemma {:induction false} BracketRead(s: string)
    ensures var r := SkipBracket(s);
            s == Read(s, r) + r && ']' !in Read(s, r) && (r != "" ==> r[0] == ']')
  {
    if s != "" && s[0] != ']' {
      BracketRead(s[1..]);
      ReadHead(s, SkipBracket(s));
      Assoc([s[0]], Read(s[1..], SkipBracket(s)), SkipBracket(s));
      assert s == [s[0]] + s[1..];
    }
  }

  lemma UserMade(a: string)
    requires Skip(a, IN_USER) == "" && AllOutside(a)
    ensures UserOk(a + "@") && AllOutside(a + "@")
  {
    assert (a + "@")[..|a|] == a;
  }

  lemma ReadOneMore(s: string, r: string)
    requires |r| <= |s| && s == Read(s, r) + r && r != ""
    ensures Read(s, r[1..]) == Read(s, r) + [r[0]] && s == Read(s, r[1..]) + r[1..]
  {
    assert s[|s| - |r|] == r[0];
    assert r == [r[0]] + r[1..];
    Assoc(Read(s, r), [r[0]], r[1..]);
  }

  lemma UserRead(s: string)
    ensures Reads(s, SkipUser(s)) && UserOk(Read(s, SkipUser(s)))
  {
    var r := Skip(s, IN_USER);
    SkipReads(s, IN_USER);
    ReadsSome(s, 0);
    if At(r, '@') {
      ReadSkipped(s, IN_USER);
      UserMade(Read(s, r));
      ReadOneMore(s, r);
    }
  }

  lemma Headed(c: char, a: string)
    ensures ([c] + a)[1..] == a && ([c] + a)[0] == c
    ensures Outside(c) && AllOutside(a) ==> AllOutside([c] + a)
  {
  }

  lemma SchemeMade(c: char, a: string)
    requires IsAlpha(c) && SkipScheme(a) == "" && AllOutside(a)
    ensures SchemeOk([c] + a) && AllOutside([c] + a)
  {
    Headed(c, a);
  }

  lemma SchemeTaken(t: string, r: string)
    requires r == SkipScheme(t)
    ensures SkipScheme(Read(t, r)) == "" && AllOutside(Read(t, r)) && t == Read(t, r) + r
  {
    SkipSchemeReads(t);
    ReadScheme(t);
  }

  lemma HeadTail(u: string, t: string, r: string)
    requires u != "" && t == u[1..] && |r| <= |t| && t == Read(t, r) + r
    ensures Read(u, r) == [u[0]] + Read(t, r) && u == Read(u, r) + r
  {
    ReadHead(u, r);
  }

  /** The scheme and what stands behind its colon. */
  lemma SchemeRead(u: string) returns (scheme: string, s: string)
    requires ParseUri(u).Some?
    ensures SchemeOk(scheme) && AllOutside(scheme) && u == scheme + (":" + s) && ParseUri(u) == HierPart(scheme, s)
  {
    var t := u[1..];
    var r := SkipScheme(t);
    SchemeTaken(t, r);
    HeadTail(u, t, r);
    SchemeMade(u[0], Read(t, r));
    scheme, s := Read(u, r), r[1..];
    assert r == ":" + s;
  }

  lemma RestReads(s: string)
    requires RestOk(s)
    ensures AllOutside(s)
  {
    var p := SkipPort(s).value;
    SkipPortReads(s);
    SkipPathReads(p);
    ReadsOn(s, p, SkipPath(p));
    EndReads(s, SkipPath(p));
  }

  /** A host is in brackets exactly if it begins with one. */
  lemma HostRead(h: string)
    requires SkipHost(h).Some?
    ensures At(Read(h, SkipHost(h).value), '[') <==> At(h, '[')
    ensures !At(h, '[') ==> Reads(h, SkipHost(h).value)
  {
    var after := SkipHost(h).value;
    NeverIpv4(h);
    SkipReads(h, IN_NAME);
    assert Read(h, after) != "" ==> Read(h, after)[0] == h[0];
  }

  lemma BracketHostRead(h: string) returns (inner: string)
    requires SkipHost(h).Some? && At(h, '[')
    ensures ']' !in inner && h == "[" + (inner + ("]" + SkipHost(h).value))
  {
    var r := SkipBracket(h[1..]);
    BracketRead(h[1..]);
    inner := Read(h[1..], r);
    assert r == "]" + r[1..] && h == "[" + h[1..];
  }

  lemma SlashesRead(s: string)
    requires StartsWith(s, "//")
    ensures s == "//" + s[2..]
  {
  }

  lemma AuthorityRead(scheme: string, s: string) returns (b: Bracketed)
    requires SchemeOk(scheme) && HierPart(scheme, s).Some? && At(HierPart(scheme, s).value.host, '[')
    ensures Correct(b) && Spelt(b) == scheme + (":" + s) && b.scheme == scheme
    ensures AllOutside(b.user) && AllOutside(b.rest)
  {
    var h := SkipUser(s[2..]);
    UserRead(s[2..]);
    HostRead(h);
    var inner := BracketHostRead(h);
    b := Bracketed(scheme, Read(s[2..], h), inner, SkipHost(h).value);
    RestReads(b.rest);
    SlashesRead(s);
  }

  /** What has a host in brackets is put together in that way. */
  lemma Decomposed(u: string) returns (b: Bracketed)
    requires ParseUri(u).Some? && At(ParseUri(u).value.host, '[')
    ensures Correct(b) && Spelt(b) == u && AllOutside(b.scheme) && AllOutside(b.user) && AllOutside(b.rest)
  {
    var scheme, s := SchemeRead(u);
    b := AuthorityRead(scheme, s);
  }

  lemma AuthorityOutside(scheme: string, s: string)
    requires StartsWith(s, "//") && HierPart(scheme, s).Some? && !At(HierPart(scheme, s).value.host, '[')
    ensures AllOutside(s)
  {
    var h := SkipUser(s[2..]);
    var after := SkipHost(h).value;
    UserRead(s[2..]);
    HostRead(h);
    ReadsOn(s[2..], h, after);
    RestReads(after);
    AllOutsideOf(s[2..], after);
    SlashesRead(s);
  }

  lemma AllOutsideOf(s: string, r: string)
    requires Reads(s, r) && AllOutside(r)
    ensures AllOutside(s)
  {
    assert forall c :: c in s ==> c in Read(s, r) || c in r;
  }

  /** Any other URI has only the usual characters. */
  lemma NoBracket(u: string)
    requires ParseUri(u).Some? && !At(ParseUri(u).value.host, '[')
    ensures AllOutside(u)
  {
    var scheme, s := SchemeRead(u);
    if StartsWith(s, "//") {
      AuthorityOutside(scheme, s);
    } else {
      SkipLocalPathReads(s);
      EndReads(s, SkipLocalPath(s));
    }
    assert forall c :: c in u ==> c in scheme || c == ':' || c in s;
  }

  /** What stands between the brackets of the host. */
  function InBrackets(u: string): string
  {
    if ParseUri(u).Some? && At(ParseUri(u).value.host, '[') && |ParseUri(u).value.host| >= 2 then
      ParseUri(u).value.host[1..|ParseUri(u).value.host| - 1]
    else ""
  }

  lemma Between(inner: string)
    ensures var host := "[" + inner + "]";
            At(host, '[') && |host| >= 2 && host[1..|host| - 1] == inner && !NoServer(host)
  {
  }

  lemma BracketFound(b: Bracketed)
    requires Correct(b)
    ensures InBrackets(Spelt(b)) == b.inner && Accepted(Spelt(b))
  {
    BracketedParsed(b);
    Between(b.inner);
  }

  lemma SpeltChars(b: Bracketed)
    ensures forall c :: c in Spelt(b) ==>
              c in b.scheme || c in ":/[]" || c in b.user || c in b.inner || c in b.rest
  {
    var t := "[" + (b.inner + ("]" + b.rest));
    assert forall c :: c in t ==> c == '[' || c in b.inner || c == ']' || c in b.rest;
    assert forall c :: c in b.user + t ==> c in b.user || c in t;
  }

  /** An accepted URI has other characters than the usual ones inside brackets only. */
  lemma OddInBrackets(u: string)
    requires Accepted(u)
    ensures forall c :: c in u && !Outside(c) ==> c in InBrackets(u)
  {
    if u != "" {
      if At(ParseUri(u).value.host, '[') {
        var b := Decomposed(u);
        BracketFound(b);
        SpeltChars(b);
      } else {
        NoBracket(u);
      }
    }
  }

  lemma InBracketsIn(u: string)
    requires Accepted(u)
    ensures forall c :: c in InBrackets(u) ==> c in u
  {
    if InBrackets(u) != "" {
      var b := Decomposed(u);
      BracketFound(b);
      var t := "[" + (b.inner + ("]" + b.rest));
      assert forall c :: c in b.inner ==> c in t;
      assert forall c :: c in t ==> c in b.user + t;
    }
  }

  // ----- which URIs are accepted, on their characters

  /** The schemes that need no server, in letters of any case. */
  predicate Serverless(scheme: string)
  {
    && |scheme| == 3
    && ((scheme[0] in "uU" && scheme[1] in "rR" && scheme[2] in "nN")
        || (scheme[0] in "dD" && scheme[1] in "aA" && scheme[2] in "vV"))
  }

  lemma LowerAt(s: string)
    ensures |Lower(s)| == |s|
    ensures forall i :: 0 <= i < |s| ==>
              Lower(s)[i] == if 'A' <= s[i] <= 'Z' then (s[i] as int + 32) as char else s[i]
  {
  }

  lemma ServerlessExactly(scheme: string)
    ensures Lower(scheme) in ["urn", "dav"] <==> Serverless(scheme)
  {
    LowerAt(scheme);
    var low := Lower(scheme);
    assert low == "urn" <==> |low| == 3 && low[0] == 'u' && low[1] == 'r' && low[2] == 'n';
    assert low == "dav" <==> |low| == 3 && low[0] == 'd' && low[1] == 'a' && low[2] == 'v';
  }

  /** The characters of a scheme, the first being a letter. */
  predicate SchemeChars(s: string)
  {
    && s != "" && ('a' <= s[0] <= 'z' || 'A' <= s[0] <= 'Z')
    && forall c :: c in s ==> 'a' <= c <= 'z' || 'A' <= c <= 'Z' || '0' <= c <= '9' || c in "+-."
  }

  lemma {:induction false} SchemeSkipped(s: string)
    requires forall c :: c in s ==> InScheme(c)
    ensures SkipScheme(s) == ""
  {
    if s != "" {
      assert s[0] in s && forall c :: c in s[1..] ==> c in s;
      SchemeSkipped(s[1..]);
    }
  }

  /** Behind its scheme. */
  lemma SchemeParsed(scheme: string, s: string)
    requires SchemeChars(scheme)
    ensures ParseUri(scheme + (":" + s)) == HierPart(scheme, s)
  {
    var u := scheme + (":" + s);
    assert u[1..] == scheme[1..] + (":" + s);
    assert forall c :: c in scheme[1..] ==> c in scheme;
    SchemeSkipped(scheme[1..]);
    SkipSchemeJoined(scheme[1..], ":" + s);
    ReadFront(scheme, ":" + s);
    assert (":" + s)[1..] == s;
  }

  /** What may stand anywhere. */
  predicate Anywhere(c: char)
  {
    || 'a' <= c <= 'z' || 'A' <= c <= 'Z' || '0' <= c <= '9'
    || c == '-' || c == '.' || c == '_' || c == '~'
    || c == '!' || c == '$' || c == '&' || c == '(' || c == ')' || c == '*'
    || c == '+' || c == ',' || c == ';' || c == '=' || c == '\''
  }

  lemma PlainExactly()
    ensures forall c :: Plain(c) <==> Anywhere(c)
  {
  }

  predicate Holds(s: string, extra: string) { forall c :: c in s ==> Anywhere(c) || c in extra }

  lemma {:induction false} HeldSkipped(s: string, extra: string)
    requires Holds(s, extra) && '%' !in extra
    ensures Skip(s, extra) == ""
  {
    if s != "" {
      PlainExactly();
      assert s[0] in s && s[0] != '%';
      assert forall c :: c in s[1..] ==> c in s;
      HeldSkipped(s[1..], extra);
    }
  }

  /** Without a server, a URI of plain characters is accepted exactly with one of the two schemes. */
  lemma SchemeDecides(scheme: string, name: string)
    requires SchemeChars(scheme) && Holds(name, ":@")
    ensures Accepted(scheme + (":" + name)) <==> Serverless(scheme)
  {
    SchemeParsed(scheme, name);
    HeldSkipped(name, IN_PATH);
    PlainExactly();
    assert name != "" ==> name[0] in name && name[0] != '/';
    assert |name| >= 2 ==> name[..2][0] == name[0];
    assert "//"[0] == '/';
    ServerlessExactly(scheme);
  }

  lemma FragmentMade(fragment: string)
    requires Holds(fragment, ":@/?[]")
    ensures EndsUri("#" + fragment)
  {
    HeldSkipped(fragment, IN_FRAGMENT);
    assert ("#" + fragment)[1..] == fragment;
  }

  lemma EndMade(query: string, fragment: string)
    requires Holds(query, ":@/?") && Holds(fragment, ":@/?[]")
    ensures EndsUri("?" + (query + ("#" + fragment)))
  {
    FragmentMade(fragment);
    HeldSkipped(query, IN_QUERY);
    PlainExactly();
    assert Skip("#" + fragment, IN_QUERY) == "#" + fragment;
    SkipJoined(query, "#" + fragment, IN_QUERY);
    assert ("?" + (query + ("#" + fragment)))[1..] == query + ("#" + fragment);
  }

  /** One step of a path. */
  lemma {:induction false} StepSkipped(c: char, path: string, end: string)
    requires Anywhere(c) || c in ":@"
    ensures Skip([c] + path + end, IN_PATH) == Skip(path + end, IN_PATH)
  {
    PlainExactly();
    assert ([c] + path + end)[1..] == path + end;
  }

  lemma SlashKept(path: string, end: string)
    requires At(path, '/')
    ensures SkipPath(Skip(path + end, IN_PATH)) == SkipPath(Skip(path[1..] + end, IN_PATH))
  {
    PlainExactly();
    assert (path + end)[1..] == path[1..] + end;
    assert Skip(path + end, IN_PATH) == path + end;
  }

  lemma OtherKept(path: string, end: string)
    requires path != "" && (Anywhere(path[0]) || path[0] in ":@")
    ensures Skip(path + end, IN_PATH) == Skip(path[1..] + end, IN_PATH)
  {
    assert path == [path[0]] + path[1..];
    StepSkipped(path[0], path[1..], end);
  }

  lemma {:induction false} PathSkipped(path: string, end: string)
    requires Holds(path, ":@/") && At(end, '?')
    ensures SkipPath(Skip(path + end, IN_PATH)) == end
  {
    if path == "" {
      PlainExactly();
      assert path + end == end && Skip(end, IN_PATH) == end;
    } else {
      assert path[0] in path && forall c :: c in path[1..] ==> c in path;
      PathSkipped(path[1..], end);
      if path[0] == '/' { SlashKept(path, end); } else { OtherKept(path, end); }
    }
  }

  lemma HostMade(host: string, r: string)
    requires Holds(host, "") && At(r, '/')
    ensures SkipUser(host + r) == host + r && SkipHost(host + r) == Some(r)
  {
    HeldSkipped(host, IN_NAME);
    HeldSkipped(host, IN_USER);
    PlainExactly();
    assert Skip(r, IN_NAME) == r && Skip(r, IN_USER) == r;
    SkipJoined(host, r, IN_NAME);
    SkipJoined(host, r, IN_USER);
    NeverIpv4(host + r);
    assert host != "" ==> (host + r)[0] in host;
  }

  lemma ServerParsed(scheme: string, host: string, r: string)
    requires Holds(host, "") && At(r, '/') && EndsUri(SkipPath(r))
    ensures HierPart(scheme, "//" + (host + r)) == Some(Parts(scheme, host))
  {
    var s := "//" + (host + r);
    assert s[..2] == "//" && s[2..] == host + r;
    HostMade(host, r);
    ReadFront(host, r);
  }

  lemma HostServes(host: string)
    requires Holds(host, "")
    ensures NoServer(host) <==> host == ""
  {
    PlainExactly();
    if host != "" {
      assert host[0] in host && host[0] != '%' && "%00"[0] == '%';
    }
  }

  lemma AcceptedBy(u: string, parts: Parts)
    requires u != "" && ParseUri(u) == Some(parts)
    ensures Accepted(u) <==> Serverless(parts.scheme) || !NoServer(parts.host)
  {
    ServerlessExactly(parts.scheme);
  }

  lemma ServerAccepted(scheme: string, host: string, r: string)
    requires SchemeChars(scheme) && Holds(host, "") && At(r, '/') && EndsUri(SkipPath(r))
    ensures Accepted(scheme + (":" + ("//" + (host + r)))) <==> host != "" || Serverless(scheme)
  {
    var s := "//" + (host + r);
    ServerParsed(scheme, host, r);
    SchemeParsed(scheme, s);
    HostServes(host);
    AcceptedBy(scheme + (":" + s), Parts(scheme, host));
  }

  lemma RestMade(path: string, query: string, fragment: string)
    requires Holds(path, ":@/") && Holds(query, ":@/?") && Holds(fragment, ":@/?[]")
    ensures EndsUri(SkipPath("/" + (path + ("?" + (query + ("#" + fragment))))))
  {
    var end := "?" + (query + ("#" + fragment));
    EndMade(query, fragment);
    PathSkipped(path, end);
    assert ("/" + (path + end))[1..] == path + end;
  }

  /** With a server any scheme will do, and path, query and fragment may hold what RFC 3986 lets them
      hold; without one it must be one of the two. */
  lemma ServerDecides(scheme: string, host: string, path: string, query: string, fragment: string)
    requires SchemeChars(scheme) && Holds(host, "") && Holds(path, ":@/")
    requires Holds(query, ":@/?") && Holds(fragment, ":@/?[]")
    ensures var r := "/" + (path + ("?" + (query + ("#" + fragment))));
            Accepted(scheme + (":" + ("//" + (host + r)))) <==> host != "" || Serverless(scheme)
  {
    RestMade(path, query, fragment);
    ServerAccepted(scheme, host, "/" + (path + ("?" + (query + ("#" + fragment)))));
  }

  predicate AllDigits(s: string) { forall c :: c in s ==> '0' <= c <= '9' }

  lemma {:induction false} DigitsSkipped(port: string, r: string)
    requires AllDigits(port) && At(r, '/')
    ensures SkipDigits(port + r) == r
    decreases |port|
  {
    if port == "" {
      assert port + r == r;
    } else {
      assert port[0] in port && forall c :: c in port[1..] ==> c in port;
      assert (port + r)[1..] == port[1..] + r;
      DigitsSkipped(port[1..], r);
    }
  }

  lemma PortSkipped(port: string, r: string)
    requires AllDigits(port) && At(r, '/')
    ensures SkipPort(":" + (port + r)) == if port == "" then None else Some(r)
  {
    var s := ":" + (port + r);
    assert s[1..] == port + r;
    DigitsSkipped(port, r);
    if port == "" { assert s[1] == r[0]; } else { assert s[1] == port[0] && port[0] in port; }
  }

  lemma HostAndPort(host: string, port: string)
    requires Holds(host, "") && AllDigits(port)
    ensures Skip(host + ":" + port, IN_USER) == ""
  {
    assert Holds(host + ":" + port, IN_USER);
    HeldSkipped(host + ":" + port, IN_USER);
  }

  lemma NoUser(host: string, port: string, r: string)
    requires Holds(host, "") && AllDigits(port) && At(r, '/')
    ensures SkipUser(host + (":" + (port + r))) == host + (":" + (port + r))
  {
    var a := host + ":" + port;
    PlainExactly();
    HostAndPort(host, port);
    assert Skip(r, IN_USER) == r;
    SkipJoined(a, r, IN_USER);
    assert a + r == host + (":" + (port + r));
  }

  lemma HostBeforePort(host: string, s: string)
    requires Holds(host, "") && At(s, ':')
    ensures SkipHost(host + s) == Some(s)
  {
    PlainExactly();
    HeldSkipped(host, IN_NAME);
    SkipJoined(host, s, IN_NAME);
    NeverIpv4(host + s);
    assert host != "" ==> (host + s)[0] in host;
  }

  lemma PortParsed(scheme: string, host: string, port: string, r: string)
    requires Holds(host, "") && AllDigits(port) && At(r, '/') && EndsUri(SkipPath(r))
    ensures HierPart(scheme, "//" + (host + (":" + (port + r)))) ==
            if port == "" then None else Some(Parts(scheme, host))
  {
    var h := host + (":" + (port + r));
    assert ("//" + h)[..2] == "//" && ("//" + h)[2..] == h;
    NoUser(host, port, r);
    HostBeforePort(host, ":" + (port + r));
    PortSkipped(port, r);
    ReadFront(host, ":" + (port + r));
  }

  lemma PortAccepted(scheme: string, host: string, port: string, r: string)
    requires SchemeChars(scheme) && Holds(host, "") && AllDigits(port) && At(r, '/') && EndsUri(SkipPath(r))
    ensures Accepted(scheme + (":" + ("//" + (host + (":" + (port + r))))))
            <==> port != "" && (host != "" || Serverless(scheme))
  {
    var s := "//" + (host + (":" + (port + r)));
    PortParsed(scheme, host, port, r);
    SchemeParsed(scheme, s);
    if port != "" {
      HostServes(host);
      AcceptedBy(scheme + (":" + s), Parts(scheme, host));
    }
  }

  /** A colon behind the host wants a port. */
  lemma PortDecides(scheme: string, host: string, port: string, path: string, query: string, fragment: string)
    requires SchemeChars(scheme) && Holds(host, "") && AllDigits(port) && Holds(path, ":@/")
    requires Holds(query, ":@/?") && Holds(fragment, ":@/?[]")
    ensures var r := "/" + (path + ("?" + (query + ("#" + fragment))));
            Accepted(scheme + (":" + ("//" + (host + (":" + (port + r))))))
            <==> port != "" && (host != "" || Serverless(scheme))
  {
    RestMade(path, query, fragment);
    PortAccepted(scheme, host, port, "/" + (path + ("?" + (query + ("#" + fragment)))));
  }

  /** A URN of plain characters is accepted. */
  lemma UrnAccepted(name: string)
    requires forall c :: c in name ==> Plain(c) && c != '%'
    ensures Accepted("urn:" + name)
  {
    PlainExactly();
    SchemeDecides("urn", name);
    assert "urn:" + name == "urn" + (":" + name);
  }
}
