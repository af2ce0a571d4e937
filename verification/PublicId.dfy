/** catalog.c: normalising public identifiers and unwrapping "urn:publicid:" names. */
module PublicId {
  import opened Strings

  // ----- normalisation (section 6.2 of OASIS XML Catalogs)

  predicate IsBlank(c: char) { c == ' ' || c == '\t' || c == '\n' || c == '\r' }

  function WordLength(s: string): (n: nat)
    ensures n <= |s| && (n == |s| || IsBlank(s[n])) && forall k :: 0 <= k < n ==> !IsBlank(s[k])
  {
    if s == [] || IsBlank(s[0]) then 0 else 1 + WordLength(s[1..])
  }

  /** The maximal runs of characters that are not blank. */
  function Words(s: string): seq<string>
    decreases |s|
  {
    if s == [] then []
    else if IsBlank(s[0]) then Words(s[1..])
    else [s[..WordLength(s)]] + Words(s[WordLength(s)..])
  }

  function Spaced(ws: seq<string>): string
  {
    if ws == [] then "" else " " + ws[0] + Spaced(ws[1..])
  }

  function Join(ws: seq<string>): string
  {
    if ws == [] then "" else ws[0] + Spaced(ws[1..])
  }

  /** A public identifier with its words separated by single spaces. */
  function Normal(s: string): string { Join(Words(s)) }

  /** The rewriting loop seen from the middle: `started` once something is written, `white` while a
      separator is due. */
  function Squeeze(s: string, started: bool, white: bool): string
  {
    if s == [] then ""
    else if IsBlank(s[0]) then Squeeze(s[1..], started, white || started)
    else (if white then " " else "") + [s[0]] + Squeeze(s[1..], true, false)
  }

  lemma {:induction false} SqueezeWord(s: string)
    ensures Squeeze(s, true, false) == s[..WordLength(s)] + Squeeze(s[WordLength(s)..], true, true)
  {
    var n := WordLength(s);
    if s == [] || IsBlank(s[0]) {
      assert s[n..] == s;
    } else {
      SqueezeWord(s[1..]);
      assert s[1..][WordLength(s[1..])..] == s[n..];
      assert s[..n] == [s[0]] + s[1..][..n - 1];
    }
  }

  lemma HeadWord(s: string, started: bool, white: bool)
    requires s != [] && !IsBlank(s[0])
    ensures var n := WordLength(s);
            Squeeze(s, started, white) == (if white then " " else "") + s[..n] + Squeeze(s[n..], true, true)
  {
    var n := WordLength(s);
    var lead := if white then " " else "";
    var rest := Squeeze(s[n..], true, true);
    SqueezeWord(s[1..]);
    assert s[1..][..n - 1] == s[1..n] && s[1..][n - 1..] == s[n..];
    Assoc(lead + [s[0]], s[1..n], rest);
    Assoc(lead, [s[0]], s[1..n]);
    assert [s[0]] + s[1..n] == s[..n];
  }

  lemma {:induction false} SqueezeSpaced(s: string)
    ensures Squeeze(s, true, true) == Spaced(Words(s))
    decreases |s|
  {
    if s != [] {
      if IsBlank(s[0]) {
        SqueezeSpaced(s[1..]);
      } else {
        HeadWord(s, true, true);
        SqueezeSpaced(s[WordLength(s)..]);
      }
    }
  }

  /** The loop computes split-on-blanks, join-with-space. */
  lemma {:induction false} SqueezeIsNormal(s: string)
    ensures Squeeze(s, false, false) == Normal(s)
  {
    if s == [] {
    } else if IsBlank(s[0]) {
      SqueezeIsNormal(s[1..]);
    } else {
      var n := WordLength(s);
      HeadWord(s, false, false);
      SqueezeSpaced(s[n..]);
      assert Words(s)[0] == s[..n] && Words(s)[1..] == Words(s[n..]);
      assert "" + s[..n] == s[..n];
    }
  }

  lemma {:induction false} SqueezeShrinks(s: string, started: bool, white: bool)
    ensures |Squeeze(s, started, white)| <= |s| + (if white || (started && s != [] && IsBlank(s[0])) then 1 else 0)
    ensures !white ==> |Squeeze(s, started, white)| <= |s|
  {
    if s != [] {
      SqueezeShrinks(s[1..], started || !IsBlank(s[0]), if IsBlank(s[0]) then white || started else false);
    }
  }

  /** The checking loop: `white` while a space would be one too many. */
  predicate Checked(s: string, white: bool)
  {
    if s == [] then !white
    else if !IsBlank(s[0]) then Checked(s[1..], false)
    else s[0] == ' ' && !white && Checked(s[1..], true)
  }

  lemma {:induction false} CheckedInside(s: string)
    ensures Checked(s, false) <==> Squeeze(s, true, false) == s
    ensures Checked(s, true) <==> Squeeze(s, true, true) == " " + s
  {
    if s != [] {
      var rest := s[1..];
      CheckedInside(rest);
      assert s == [s[0]] + rest;
      if IsBlank(s[0]) {
        SqueezeShrinks(rest, true, true);
        SpacedStart(rest);
        assert s[0] == ' ' ==> " " + rest == s;
      } else {
        var t := Squeeze(rest, true, false);
        Cancel([s[0]], t, rest);
        Assoc(" ", [s[0]], t);
        Cancel(" ", [s[0]] + t, s);
        assert "" + [s[0]] == [s[0]];
      }
    }
  }

  lemma SpacedStart(s: string)
    ensures Squeeze(s, true, true) == "" || Squeeze(s, true, true)[0] == ' '
  {
    SqueezeSpaced(s);
  }

  /** The check succeeds exactly on non-empty identifiers that normalisation leaves alone. */
  lemma CheckedIsNormal(s: string)
    ensures Checked(s, true) <==> s != "" && Normal(s) == s
  {
    SqueezeIsNormal(s);
    if s != [] {
      CheckedInside(s[1..]);
      SqueezeShrinks(s[1..], false, false);
      assert s == [s[0]] + s[1..];
      if !IsBlank(s[0]) {
        var t := Squeeze(s[1..], true, false);
        assert ([s[0]] + t)[1..] == t;
      }
    }
  }

  /** xmlCatalogNormalizePublic: nothing is returned for an identifier that is already normal. */
  method NormalizePublic(pubID: string) returns (ret: Option<string>)
    ensures ret == if pubID != "" && Normal(pubID) == pubID then None else Some(Normal(pubID))
  {
    CheckedIsNormal(pubID);
    var ok, white, p := true, true, 0;
    while p < |pubID| && ok
      invariant 0 <= p <= |pubID|
      invariant Checked(pubID, true) <==> ok && Checked(pubID[p..], white)
    {
      assert pubID[p..][1..] == pubID[p + 1..];
      if !IsBlank(pubID[p]) {
        white := false;
      } else if pubID[p] == ' ' && !white {
        white := true;
      } else {
        ok := false;
      }
      p := p + 1;
    }
    if ok && !white {
      return None;
    }
    SqueezeIsNormal(pubID);
    var text := Rewrite(pubID);
    ret := Some(text);
  }

  /** The second loop: the words are moved together in a copy that is never written past its end. */
  method Rewrite(pubID: string) returns (text: string)
    ensures text == Squeeze(pubID, false, false)
  {
    var copy := new char[|pubID| + 1](_ => '\0');
    var q, white, p := 0, false, 0;
    assert copy[..q] + Squeeze(pubID, false, false) == Squeeze(pubID, false, false);
    while p < |pubID|
      invariant 0 <= p <= |pubID| && 0 <= q && q + (if white then 1 else 0) <= p && (white ==> q != 0)
      invariant copy[..q] + Squeeze(pubID[p..], q != 0, white) == Squeeze(pubID, false, false)
    {
      assert pubID[p..][1..] == pubID[p + 1..];
      if IsBlank(pubID[p]) {
        if q != 0 {
          white := true;
        }
      } else {
        ghost var before := copy[..q];
        ghost var lead := if white then " " else "";
        if white {
          copy[q] := ' ';
          q := q + 1;
          white := false;
        }
        assert copy[..q] == before + lead;
        copy[q] := pubID[p];
        q := q + 1;
        assert copy[..q] == copy[..q - 1] + [pubID[p]] == before + lead + [pubID[p]];
        Assoc(before, lead, [pubID[p]]);
        Assoc(before, lead + [pubID[p]], Squeeze(pubID[p + 1..], true, false));
      }
      p := p + 1;
    }
    copy[q] := '\0';
    assert copy[..q] + "" == copy[..q];
    text := copy[..q];
  }

  lemma BlankFirst(s: string)
    requires s != "" && IsBlank(s[0])
    ensures Words(s) == Words(s[1..])
  {
  }

  lemma SpacedBegins(ws: seq<string>)
    ensures Spaced(ws) == "" || IsBlank(Spaced(ws)[0])
    ensures ws != [] ==> Spaced(ws) != "" && Spaced(ws)[1..] == ws[0] + Spaced(ws[1..])
  {
    if ws != [] { Assoc(" ", ws[0], Spaced(ws[1..])); }
  }

  lemma {:induction false} SpacedWords(ws: seq<string>)
    requires forall w :: w in ws ==> w != "" && forall k :: 0 <= k < |w| ==> !IsBlank(w[k])
    ensures Words(Spaced(ws)) == ws
  {
    if ws != [] {
      SpacedWords(ws[1..]);
      SpacedBegins(ws);
      SpacedBegins(ws[1..]);
      BlankFirst(Spaced(ws));
      WordThen(ws[0], Spaced(ws[1..]));
    }
  }

  lemma WordThen(w: string, t: string)
    requires w != "" && (forall k :: 0 <= k < |w| ==> !IsBlank(w[k])) && (t == "" || IsBlank(t[0]))
    ensures Words(w + t) == [w] + Words(t)
  {
    var s := w + t;
    assert forall k :: 0 <= k < |w| ==> s[k] == w[k];
    assert t != "" ==> s[|w|] == t[0];
    assert WordLength(s) == |w|;
    assert s[..|w|] == w && s[|w|..] == t;
    assert !IsBlank(s[0]);
  }

  lemma {:induction false} WordsAreWords(s: string)
    ensures forall w :: w in Words(s) ==> w != "" && forall k :: 0 <= k < |w| ==> !IsBlank(w[k])
    decreases |s|
  {
    if s != [] {
      WordsAreWords(if IsBlank(s[0]) then s[1..] else s[WordLength(s)..]);
    }
  }

  /** Normalising twice is normalising once, and loses no word. */
  lemma NormalIdempotent(s: string)
    ensures Words(Normal(s)) == Words(s)
    ensures Normal(Normal(s)) == Normal(s)
  {
    WordsAreWords(s);
    JoinedWords(Words(s));
  }

  lemma JoinedWords(ws: seq<string>)
    requires forall w :: w in ws ==> w != "" && forall k :: 0 <= k < |w| ==> !IsBlank(w[k])
    ensures Words(Join(ws)) == ws
  {
    if ws != [] {
      assert ws[0] in ws;
      SpacedWords(ws[1..]);
      WordThen(ws[0], Spaced(ws[1..]));
    }
  }

  /** Single spaces are the only blanks, and stand between other characters; `white` forbids one at the
      start. */
  predicate Neat(s: string, white: bool)
  {
    && (forall c :: c in s ==> c != '\t' && c != '\n' && c != '\r')
    && (if s == "" then !white else s[|s| - 1] != ' ' && (white ==> s[0] != ' '))
    && forall k :: 0 < k < |s| ==> !(s[k - 1] == ' ' && s[k] == ' ')
  }

  lemma NeatStep(s: string, white: bool)
    requires s != ""
    ensures Neat(s, white) <==>
            s[0] != '\t' && s[0] != '\n' && s[0] != '\r' && !(white && s[0] == ' ') && Neat(s[1..], s[0] == ' ')
  {
    var rest := s[1..];
    assert s == [s[0]] + rest && s[0] in s && forall c :: c in rest ==> c in s;
    assert rest != "" ==> rest[|rest| - 1] == s[|s| - 1] && rest[0] == s[1];
    if Neat(s, white) {
      forall k | 0 < k < |rest| ensures !(rest[k - 1] == ' ' && rest[k] == ' ') {
        assert rest[k - 1] == s[k] && rest[k] == s[k + 1] && !(s[k + 1 - 1] == ' ' && s[k + 1] == ' ');
      }
      assert rest != "" ==> !(s[1 - 1] == ' ' && s[1] == ' ');
    } else if Neat(rest, s[0] == ' ') {
      forall k | 1 < k < |s| ensures !(s[k - 1] == ' ' && s[k] == ' ') {
        assert rest[k - 1 - 1] == s[k - 1] && rest[k - 1] == s[k] && !(rest[k - 1 - 1] == ' ' && rest[k - 1] == ' ');
      }
    }
  }

  lemma {:induction false} CheckedIsNeat(s: string, white: bool)
    ensures Checked(s, white) <==> Neat(s, white)
  {
    if s != [] {
      NeatStep(s, white);
      CheckedIsNeat(s[1..], s[0] == ' ');
    }
  }

  /** The characters that are no space, tab, line feed or carriage return. */
  function Solid(s: string): string
  {
    if s == "" then "" else (if s[0] in " \t\n\r" then "" else [s[0]]) + Solid(s[1..])
  }

  lemma {:induction false} SolidAppend(s: string, t: string)
    ensures Solid(s + t) == Solid(s) + Solid(t)
  {
    if s == "" {
      assert s + t == t;
    } else {
      assert (s + t)[1..] == s[1..] + t;
      SolidAppend(s[1..], t);
      Assoc(if s[0] in " \t\n\r" then "" else [s[0]], Solid(s[1..]), Solid(t));
    }
  }

  lemma {:induction false} SqueezeSolid(s: string, started: bool, white: bool)
    ensures Solid(Squeeze(s, started, white)) == Solid(s)
  {
    if s != [] {
      if IsBlank(s[0]) {
        SqueezeSolid(s[1..], started, white || started);
      } else {
        var lead, rest := if white then " " else "", Squeeze(s[1..], true, false);
        SqueezeSolid(s[1..], true, false);
        SolidAppend(lead + [s[0]], rest);
        SolidAppend(lead, [s[0]]);
        assert [s[0]][1..] == "" && " "[1..] == "";
        assert Solid(lead) == "" && Solid([s[0]]) == [s[0]];
      }
    }
  }

  /** A normal identifier has single spaces between other characters and no other blanks, and nothing but
      blanks is lost. */
  lemma NormalIsNeat(s: string)
    ensures Normal(s) == "" || Neat(Normal(s), true)
    ensures Solid(Normal(s)) == Solid(s)
  {
    NormalIdempotent(s);
    CheckedIsNormal(Normal(s));
    CheckedIsNeat(Normal(s), true);
    SqueezeIsNormal(s);
    SqueezeSolid(s, false, false);
  }

  // ----- unwrapping

  const URN_PUBID := "urn:publicid:"
  const RESULT_SIZE := 2000

  predicate IsUrn(s: string) { StartsWith(s, URN_PUBID) }

  /** The character a two-digit code stands for. */
  function Decoded(a: char, b: char): Option<char>
  {
    if a == '2' then
      if b == 'B' then Some('+') else if b == 'F' then Some('/') else if b == '7' then Some('\'')
      else if b == '3' then Some('#') else if b == '5' then Some('%') else None
    else if a == '3' then
      if b == 'A' then Some(':') else if b == 'B' then Some(';') else if b == 'F' then Some('?') else None
    else None
  }

  /** What the characters at the head of a URN stand for, and how many they are. */
  function Token(s: string): (r: (string, nat))
    requires s != []
    ensures 1 <= |r.0| <= 2 && 1 <= r.1 <= |s|
  {
    if s[0] == '+' then (" ", 1)
    else if s[0] == ':' then ("//", 1)
    else if s[0] == ';' then ("::", 1)
    else if s[0] == '%' && |s| >= 3 && Decoded(s[1], s[2]).Some? then ([Decoded(s[1], s[2]).value], 3)
    else ([s[0]], 1)
  }

  /** What `s` unwraps to when `i` characters are already in the result; it is cut off there once
      fewer than four places are left. */
  function UnwrapFrom(s: string, i: nat): string
    decreases |s|
  {
    if s == [] || i > RESULT_SIZE - 4 then ""
    else
      var (text, n) := Token(s);
      text + UnwrapFrom(s[n..], i + |text|)
  }

  function Unwrapped(urn: string): string
    requires IsUrn(urn)
  {
    UnwrapFrom(urn[|URN_PUBID|..], 0)
  }

  lemma UnwrapStep(done: string, urn: string, at: nat, i: nat)
    requires at < |urn| && i <= RESULT_SIZE - 4
    ensures var (text, n) := Token(urn[at..]);
            done + UnwrapFrom(urn[at..], i) == done + text + UnwrapFrom(urn[at + n..], i + |text|)
  {
    var (text, n) := Token(urn[at..]);
    assert urn[at..][n..] == urn[at + n..];
    Assoc(done, text, UnwrapFrom(urn[at + n..], i + |text|));
  }

  method PutToken(result: array<char>, i: nat, text: string)
    requires 1 <= |text| <= 2 && i + |text| <= result.Length
    modifies result
    ensures result[..i + |text|] == old(result[..i]) + text
  {
    result[i] := text[0];
    if |text| == 2 {
      result[i + 1] := text[1];
    }
  }

  /** xmlCatalogUnWrapURN: never writes outside its fixed result buffer. */
  method UnWrapURN(urn: string) returns (r: Option<string>)
    ensures r == if IsUrn(urn) then Some(Unwrapped(urn)) else None
  {
    if !StartsWith(urn, URN_PUBID) {
      return None;
    }
    var text := UnwrapTail(urn[|URN_PUBID|..]);
    r := Some(text);
  }

  /** The loop over what follows the prefix. */
  method UnwrapTail(urn: string) returns (text: string)
    ensures text == UnwrapFrom(urn, 0)
  {
    var result := new char[RESULT_SIZE](_ => '\0');
    var i, at := 0, 0;
    ghost var whole := UnwrapFrom(urn, 0);
    assert urn[at..] == urn && result[..i] + whole == whole;
    while at < |urn| && i <= RESULT_SIZE - 4
      invariant 0 <= at <= |urn| && 0 <= i <= RESULT_SIZE - 2
      invariant result[..i] + UnwrapFrom(urn[at..], i) == whole
    {
      i, at := UnwrapOne(result, i, urn, at);
    }
    result[i] := '\0';
    assert result[..i] + "" == result[..i];
    text := result[..i];
  }

  /** One turn of the loop. */
  method UnwrapOne(result: array<char>, i: nat, urn: string, at: nat) returns (j: nat, next: nat)
    requires result.Length == RESULT_SIZE && i <= RESULT_SIZE - 4 && at < |urn|
    modifies result
    ensures i < j <= i + 2 && at < next <= |urn|
    ensures result[..j] + UnwrapFrom(urn[next..], j) == old(result[..i]) + UnwrapFrom(urn[at..], i)
  {
    var (token, n) := Token(urn[at..]);
    UnwrapStep(result[..i], urn, at, i);
    PutToken(result, i, token);
    j, next := i + |token|, at + n;
  }

  // ----- unwrapping undoes transcription (section 6.4 of OASIS XML Catalogs)

  /** How a character that may not stand for itself is coded. */
  function Coded(c: char): Option<string>
  {
    if c == ' ' then Some("+")
    else if c == '+' then Some("%2B")
    else if c == ':' then Some("%3A")
    else if c == '/' then Some("%2F")
    else if c == ';' then Some("%3B")
    else if c == '\'' then Some("%27")
    else if c == '?' then Some("%3F")
    else if c == '#' then Some("%23")
    else if c == '%' then Some("%25")
    else None
  }

  /** How the head of a public identifier is transcribed, and how many characters it takes. */
  function Spelling(s: string): (r: (string, nat))
    requires s != []
    ensures 1 <= r.1 <= |s| && r.1 <= 2
  {
    if |s| >= 2 && s[0] == '/' && s[1] == '/' then (":", 2)
    else if |s| >= 2 && s[0] == ':' && s[1] == ':' then (";", 2)
    else if Coded(s[0]).Some? then (Coded(s[0]).value, 1)
    else ([s[0]], 1)
  }

  function Transcribe(s: string): string
    decreases |s|
  {
    if s == [] then "" else
      var (code, n) := Spelling(s);
      code + Transcribe(s[n..])
  }

  lemma TokenOfSpelling(s: string, rest: string)
    requires s != []
    ensures var (code, n) := Spelling(s); Token(code + rest) == (s[..n], |code|)
  {
    var (code, n) := Spelling(s);
    var t := code + rest;
    assert t[0] == code[0];
    if |code| == 3 {
      assert t[1] == code[1] && t[2] == code[2];
    }
    if n == 2 {
      assert s[..2] == [s[0], s[1]];
    } else {
      assert s[..1] == [s[0]];
    }
  }

  /** The size of the last group of characters transcribed together. */
  function LastGroup(s: string): nat
    requires s != []
    decreases |s|
  {
    var n := Spelling(s).1;
    if n == |s| then n else LastGroup(s[n..])
  }

  lemma UnwrapSpelling(s: string, tail: string, i: nat)
    requires s != [] && i <= RESULT_SIZE - 4
    ensures var (code, n) := Spelling(s); UnwrapFrom(code + tail, i) == s[..n] + UnwrapFrom(tail, i + n)
  {
    var (code, n) := Spelling(s);
    TokenOfSpelling(s, tail);
    assert (code + tail)[|code|..] == tail;
  }

  lemma UnwrapGroup(s: string, i: nat)
    requires s != []
    ensures var n := Spelling(s).1;
            UnwrapFrom(Transcribe(s), i) == s <==>
            i <= RESULT_SIZE - 4 && UnwrapFrom(Transcribe(s[n..]), i + n) == s[n..]
  {
    var n := Spelling(s).1;
    if i <= RESULT_SIZE - 4 {
      UnwrapSpelling(s, Transcribe(s[n..]), i);
      assert s == s[..n] + s[n..];
      Cancel(s[..n], UnwrapFrom(Transcribe(s[n..]), i + n), s[n..]);
    }
  }

  lemma LastGroupStep(s: string)
    requires s != []
    ensures var n := Spelling(s).1;
            LastGroup(s) == (if n == |s| then n else LastGroup(s[n..])) && LastGroup(s) <= |s|
    ensures s[Spelling(s).1..] != "" ==> LastGroup(s[Spelling(s).1..]) <= |s| - Spelling(s).1
  {
    LastGroupShort(s);
    if Spelling(s).1 < |s| { LastGroupShort(s[Spelling(s).1..]); }
  }

  lemma {:induction false} UnwrapTranscribed(s: string, i: nat)
    ensures UnwrapFrom(Transcribe(s), i) == s <==> s == "" || i + |s| - LastGroup(s) <= RESULT_SIZE - 4
    decreases |s|
  {
    if s != [] {
      var n := Spelling(s).1;
      UnwrapTranscribed(s[n..], i + n);
      UnwrapGroup(s, i);
      LastGroupStep(s);
    }
  }

  lemma {:induction false} LastGroupShort(s: string)
    requires s != []
    ensures 1 <= LastGroup(s) <= 2 && LastGroup(s) <= |s|
    decreases |s|
  {
    var n := Spelling(s).1;
    if n != |s| { LastGroupShort(s[n..]); }
  }

  /** Unwrapping gives a transcribed identifier back exactly when its last group starts within the
      first 1996 characters; up to 1997 characters it always does. */
  lemma UnwrapInvertsTranscription(s: string)
    ensures IsUrn(URN_PUBID + Transcribe(s))
    ensures Unwrapped(URN_PUBID + Transcribe(s)) == s <==> s == "" || |s| - LastGroup(s) <= RESULT_SIZE - 4
    ensures |s| <= RESULT_SIZE - 3 ==> Unwrapped(URN_PUBID + Transcribe(s)) == s
  {
    var u := URN_PUBID + Transcribe(s);
    assert u[..|URN_PUBID|] == URN_PUBID && u[|URN_PUBID|..] == Transcribe(s);
    UnwrapTranscribed(s, 0);
    if s != "" { LastGroupShort(s); }
  }

  // ----- repeated unwrapping ends

  function Percents(s: string): nat
  {
    if s == [] then 0 else (if s[0] == '%' then 1 else 0) + Percents(s[1..])
  }

  lemma {:induction false} PercentsAppend(a: string, b: string)
    ensures Percents(a + b) == Percents(a) + Percents(b)
  {
    if a == [] {
      assert a + b == b;
    } else {
      PercentsAppend(a[1..], b);
      assert (a + b)[1..] == a[1..] + b;
    }
  }

  /** A colon with no colon beside it. */
  predicate LoneColon(s: string, k: nat)
    requires k < |s|
  {
    s[k] == ':' && (k == 0 || s[k - 1] != ':') && (k + 1 == |s| || s[k + 1] != ':')
  }

  /** Unwrapping adds no '%', and uses one up for every colon that stands alone. */
  lemma {:induction false} UnwrapPercents(s: string, i: nat)
    ensures Percents(UnwrapFrom(s, i)) <= Percents(s)
    ensures Percents(UnwrapFrom(s, i)) == Percents(s) ==>
              forall k :: 0 <= k < |UnwrapFrom(s, i)| ==> !LoneColon(UnwrapFrom(s, i), k)
    decreases |s|
  {
    if s != [] && i <= RESULT_SIZE - 4 {
      var (text, n) := Token(s);
      var rest := UnwrapFrom(s[n..], i + |text|);
      UnwrapPercents(s[n..], i + |text|);
      PercentsAppend(text, rest);
      PercentsAppend(s[..n], s[n..]);
      assert s == s[..n] + s[n..];
      TokenPercents(s);
      var r := text + rest;
      forall k | 0 <= k < |r| && Percents(r) == Percents(s) ensures !LoneColon(r, k) {
        if k >= |text| {
          LoneInTail(text, rest, k);
        }
      }
    }
  }

  lemma LoneInTail(a: string, b: string, k: nat)
    requires |a| <= k < |a + b|
    ensures !LoneColon(b, k - |a|) ==> !LoneColon(a + b, k)
  {
  }

  lemma TokenPercents(s: string)
    requires s != []
    ensures var (text, n) := Token(s);
            && Percents(text) <= Percents(s[..n])
            && (Percents(text) == Percents(s[..n]) && text[0] == ':' ==> text == "::")
  {
    var (text, n) := Token(s);
    var head := s[..n];
    assert head[0] == s[0];
    assert Percents(head) == (if head[0] == '%' then 1 else 0) + Percents(head[1..]);
    assert Percents(text) == (if text[0] == '%' then 1 else 0) + Percents(text[1..]);
    if |text| == 2 {
      assert Percents(text[1..]) == (if text[1] == '%' then 1 else 0) + Percents(text[1..][1..]);
    }
  }

  lemma {:induction false} NormalPercents(s: string, started: bool, white: bool)
    ensures Percents(Squeeze(s, started, white)) == Percents(s)
  {
    if s != [] {
      if IsBlank(s[0]) {
        NormalPercents(s[1..], started, white || started);
      } else {
        var head := (if white then " " else "") + [s[0]];
        NormalPercents(s[1..], true, false);
        PercentsAppend(head, Squeeze(s[1..], true, false));
        assert head[|head| - 1] == s[0];
        assert Percents(head) == (if s[0] == '%' then 1 else 0) by {
          if white { assert head[1..] == [s[0]]; } else { assert head == [s[0]]; }
        }
      }
    }
  }

  /** A normalised text that starts with the URN prefix has it intact in the original. */
  lemma {:induction false} FirstWordIntact(s: string) returns (k: nat)
    requires IsUrn(Normal(s))
    ensures k + |URN_PUBID| <= |s| && s[k..k + |URN_PUBID|] == URN_PUBID
    decreases |s|
  {
    if s != [] && IsBlank(s[0]) {
      k := FirstWordIntact(s[1..]);
      assert s[k + 1..k + 1 + |URN_PUBID|] == s[1..][k..k + |URN_PUBID|];
      k := k + 1;
    } else {
      k := 0;
      var ws := Words(s);
      FirstWordHolds(ws[0], ws[1..], URN_PUBID);
      assert s[..|URN_PUBID|] == ws[0][..|URN_PUBID|];
    }
  }

  /** A blank-free text at the head of joined words lies within the first word. */
  lemma FirstWordHolds(w: string, ws: seq<string>, p: string)
    requires StartsWith(w + Spaced(ws), p) && forall k :: 0 <= k < |p| ==> !IsBlank(p[k])
    ensures StartsWith(w, p)
  {
    var all := w + Spaced(ws);
    if ws != [] {
      assert Spaced(ws)[0] == ' ';
      assert all[|w|] == ' ';
    }
    assert forall k :: 0 <= k < |p| ==> all[k] == p[k];
    assert |p| <= |w|;
    assert w[..|p|] == all[..|p|];
  }

  lemma UrnHasLoneColon(s: string, k: nat)
    requires k + |URN_PUBID| <= |s| && s[k..k + |URN_PUBID|] == URN_PUBID
    ensures LoneColon(s, k + 3)
  {
    assert s[k + 2] == URN_PUBID[2] && s[k + 3] == URN_PUBID[3] && s[k + 4] == URN_PUBID[4];
  }

  /** If an unwrapped URN is a URN again, a "%3A" was used up. */
  lemma UnwrapDrops(urn: string)
    requires IsUrn(urn)
    ensures Percents(Unwrapped(urn)) <= Percents(urn)
    ensures IsUrn(Unwrapped(urn)) || IsUrn(Normal(Unwrapped(urn))) ==> Percents(Unwrapped(urn)) < Percents(urn)
  {
    var tail := urn[|URN_PUBID|..];
    assert urn == urn[..|URN_PUBID|] + tail;
    PercentsAppend(urn[..|URN_PUBID|], tail);
    UnwrapPercents(tail, 0);
    UrnAgain(Unwrapped(urn));
  }

  /** A URN, even one that only normalisation brings to the front, has a colon that stands alone. */
  lemma UrnAgain(r: string)
    ensures IsUrn(r) || IsUrn(Normal(r)) ==> exists k :: 0 <= k < |r| && LoneColon(r, k)
  {
    if IsUrn(r) {
      assert r[0..|URN_PUBID|] == r[..|URN_PUBID|];
      UrnHasLoneColon(r, 0);
    } else if IsUrn(Normal(r)) {
      var k := FirstWordIntact(r);
      UrnHasLoneColon(r, k);
    }
  }

  // ----- the identifiers a lookup ends up with

  function NormalPublic(pub: Option<string>): Option<string>
  {
    if pub.None? || Normal(pub.value) == "" then None else Some(Normal(pub.value))
  }

  function Cost(id: Option<string>): nat
  {
    if id.Some? && IsUrn(id.value) then 1 + Percents(id.value) else 0
  }

  /** How much unwrapping is left to do. */
  function Measure(pub: Option<string>, sys: Option<string>): nat
  {
    Cost(NormalPublic(pub)) + Cost(sys)
  }

  lemma CostOfUnwrapped(urn: string)
    requires IsUrn(urn)
    ensures Cost(Some(Unwrapped(urn))) < Cost(Some(urn))
    ensures Cost(NormalPublic(Some(Unwrapped(urn)))) < Cost(Some(urn))
  {
    var r := Unwrapped(urn);
    UnwrapDrops(urn);
    SqueezeIsNormal(r);
    NormalPercents(r, false, false);
  }

  /** The identifiers left once no URN remains: how section 6.4 says a lookup starts. */
  function Ids(pub: Option<string>, sys: Option<string>): (Option<string>, Option<string>)
    decreases Measure(pub, sys)
  {
    var p := NormalPublic(pub);
    if p.Some? && IsUrn(p.value) then
      CostOfUnwrapped(p.value);
      Ids(Some(Unwrapped(p.value)), sys)
    else if sys.Some? && IsUrn(sys.value) then
      var u := Unwrapped(sys.value);
      CostOfUnwrapped(sys.value);
      NormalPublicAgain(pub);
      if p.None? then Ids(Some(u), None)
      else if p.value == u then Ids(p, None)
      else Ids(p, Some(u))
    else (p, sys)
  }

  lemma NormalPublicAgain(pub: Option<string>)
    ensures NormalPublic(NormalPublic(pub)) == NormalPublic(pub)
  {
    if pub.Some? { NormalIdempotent(pub.value); }
  }

  /** No URN is left, the public identifier is normal, and starting again changes nothing. */
  lemma {:induction false} IdsSettled(pub: Option<string>, sys: Option<string>)
    ensures var (p, s) := Ids(pub, sys);
            && Cost(p) == 0 && Cost(s) == 0 && NormalPublic(p) == p
            && Ids(p, s) == (p, s) && Ids(None, s) == (None, s) && Ids(p, None) == (p, None)
    decreases Measure(pub, sys)
  {
    var p := NormalPublic(pub);
    NormalPublicAgain(pub);
    if p.Some? && IsUrn(p.value) {
      CostOfUnwrapped(p.value);
      IdsSettled(Some(Unwrapped(p.value)), sys);
    } else if sys.Some? && IsUrn(sys.value) {
      var u := Unwrapped(sys.value);
      CostOfUnwrapped(sys.value);
      if p.None? { IdsSettled(Some(u), None); }
      else if p.value == u { IdsSettled(p, None); }
      else { IdsSettled(p, Some(u)); }
    }
  }

  // ----- section 6.4 of OASIS XML Catalogs, spelt out

  lemma UrnExactly(s: string)
    ensures IsUrn(s) <==> "urn:publicid:" <= s
  {
  }

  /** What stands for what. */
  lemma TokenTable(r: string)
    ensures Token("+" + r) == (" ", 1) && Token(":" + r) == ("//", 1) && Token(";" + r) == ("::", 1)
    ensures Token("%2B" + r) == ("+", 3) && Token("%3A" + r) == (":", 3) && Token("%2F" + r) == ("/", 3)
    ensures Token("%3B" + r) == (";", 3) && Token("%27" + r) == ("'", 3) && Token("%3F" + r) == ("?", 3)
    ensures Token("%23" + r) == ("#", 3) && Token("%25" + r) == ("%", 3)
  {
  }

  /** Without a URN the system identifier stays, and the public one is its normal form, if that is not empty. */
  lemma IdsPlain(pub: Option<string>, sys: Option<string>)
    requires pub.Some? ==> !("urn:publicid:" <= Normal(pub.value))
    requires sys.Some? ==> !("urn:publicid:" <= sys.value)
    ensures Ids(pub, sys).1 == sys
    ensures Ids(pub, sys).0 == if pub.None? || Normal(pub.value) == "" then None else Some(Normal(pub.value))
  {
  }

  /** A public identifier that is a URN is replaced by what it unwraps to. */
  lemma IdsPublicUrn(pub: string, sys: Option<string>)
    requires "urn:publicid:" <= Normal(pub)
    ensures IsUrn(Normal(pub)) && Ids(Some(pub), sys) == Ids(Some(Unwrapped(Normal(pub))), sys)
  {
  }

  /** A system identifier that is one becomes the public identifier, if there is no other; with the same
      public identifier it is dropped, and with another one it stays as what it unwraps to. */
  lemma IdsSystemUrn(pub: Option<string>, sys: string)
    requires "urn:publicid:" <= sys && (pub.Some? ==> Normal(pub.value) == pub.value != "" && !IsUrn(pub.value))
    ensures IsUrn(sys)
    ensures Ids(pub, Some(sys)) ==
            if pub.None? then Ids(Some(Unwrapped(sys)), None)
            else if pub.value == Unwrapped(sys) then (pub, None)
            else Ids(pub, Some(Unwrapped(sys)))
  {
    CostOfUnwrapped(sys);
  }
}
