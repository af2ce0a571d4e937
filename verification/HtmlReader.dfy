/** HTMLparser.c: the loops that read references from the input, position by position. */
module HtmlReader {
  import opened Strings
  import opened HtmlEncode
  import opened Entities

  /** What is read from `at` on is what the next piece gives, and then the rest. */
  lemma ReadAt(t: Table, input: string, at: nat)
    requires at < |input| && input[at] != '<' && input[at] != '\0'
    ensures input[at] == '&' ==>
              var (text, n) := Reference(t, input[at..]);
              Read(t, input[at..]) == text + Read(t, input[at + n..])
    ensures input[at] != '&' ==>
              Read(t, input[at..]) ==
              (if LegalChar(input[at] as int) then [input[at]] else "") + Read(t, input[at + 1..])
  {
    var s := input[at..];
    assert s[1..] == input[at + 1..];
    if s[0] == '&' { assert s[Reference(t, s).1..] == input[at + Reference(t, s).1..]; }
  }

  class Reader {
    const rows: seq<Entity>
    const input: string
    var cur: nat

    constructor (rows: seq<Entity>, input: string)
      ensures this.rows == rows && this.input == input && cur == 0
    {
      this.rows, this.input, cur := rows, input, 0;
    }

    /** The character `k` places on; behind the input there are zeros. */
    function Nxt(k: nat): char
      reads `cur
    {
      if cur + k < |input| then input[cur + k] else '\0'
    }

    /** The hexadecimal digits at the current position. */
    method ParseHex() returns (val: nat)
      requires cur <= |input|
      modifies `cur
      ensures val == HexValue(input[old(cur)..], 0) && cur == old(cur) + HexLength(input[old(cur)..])
    {
      val := 0;
      while Nxt(0) != ';'
        invariant old(cur) <= cur <= |input|
        invariant HexValue(input[old(cur)..], 0) == HexValue(input[cur..], val)
        invariant HexLength(input[old(cur)..]) == cur - old(cur) + HexLength(input[cur..])
        decreases |input| - cur
      {
        var digit := HexDigit(Nxt(0));
        if digit.None? {
          break;
        }
        assert input[cur..][1..] == input[cur + 1..];
        val := val * 16 + digit.value;
        cur := cur + 1;
      }
    }

    /** The decimal digits at the current position. */
    method ParseDecimal() returns (val: nat)
      requires cur <= |input|
      modifies `cur
      ensures val == DecimalValue(input[old(cur)..], 0) && cur == old(cur) + DigitsLength(input[old(cur)..])
    {
      val := 0;
      while Nxt(0) != ';'
        invariant old(cur) <= cur <= |input|
        invariant DecimalValue(input[old(cur)..], 0) == DecimalValue(input[cur..], val)
        invariant DigitsLength(input[old(cur)..]) == cur - old(cur) + DigitsLength(input[cur..])
        decreases |input| - cur
      {
        if !IsDigit(Nxt(0)) {
          break;
        }
        assert input[cur..][1..] == input[cur + 1..];
        val := val * 10 + (Nxt(0) as int - '0' as int);
        cur := cur + 1;
      }
    }

    /** htmlParseCharRef */
    method ParseCharRef() returns (ret: nat)
      requires cur + 2 <= |input| && Nxt(0) == '&' && Nxt(1) == '#'
      modifies `cur
      ensures old(cur) + 2 <= cur <= |input| && (ret, cur - old(cur) - 2) == CharRef(input[old(cur) + 2..])
    {
      var val;
      ghost var s := input[cur + 2..];
      if Nxt(2) == 'x' || Nxt(2) == 'X' {
        assert s[1..] == input[cur + 3..];
        cur := cur + 3;
        val := ParseHex();
      } else {
        cur := cur + 2;
        val := ParseDecimal();
      }
      if Nxt(0) == ';' {
        cur := cur + 1;
      }
      ret := if LegalChar(val) then val else 0;
    }

    /** htmlParseName, for ASCII names */
    method ParseName() returns (name: Option<string>)
      requires cur <= |input|
      modifies `cur
      ensures old(cur) <= cur <= |input|
      ensures name == if old(cur) < |input| && NameStart(input[old(cur)])
                      then Some(input[old(cur)..][..NameLength(input[old(cur)..])]) else None
      ensures cur == old(cur) + if name.Some? then NameLength(input[old(cur)..]) else 0
    {
      if !NameStart(Nxt(0)) {
        return None;
      }
      var start := cur;
      while NameChar(Nxt(0))
        invariant start == old(cur) <= cur <= |input|
        invariant NameLength(input[old(cur)..]) == cur - old(cur) + NameLength(input[cur..])
        decreases |input| - cur
      {
        assert input[cur..][1..] == input[cur + 1..];
        cur := cur + 1;
      }
      name := Some(input[start..cur]);
      assert input[start..][..cur - start] == input[start..cur];
    }

    /** htmlParseEntityRef: the semicolon is taken only with a name the table has. */
    method ParseEntityRef() returns (ent: Option<Entity>, name: Option<string>)
      requires cur < |input| && Nxt(0) == '&'
      modifies `cur
      ensures old(cur) < cur <= |input|
      ensures var s := input[old(cur) + 1..];
              var n := if s != "" && NameStart(s[0]) then NameLength(s) else 0;
              var known := name.Some? && n < |s| && s[n] == ';' && TableOf(rows).valueOf(name.value).Some?;
              && name == (if s != "" && NameStart(s[0]) then Some(s[..n]) else None)
              && cur == old(cur) + 1 + n + (if known then 1 else 0)
              && ent.Some? == known && (known ==> TableOf(rows).valueOf(name.value) == Some(ent.value.value))
    {
      cur := cur + 1;
      ent := None;
      name := ParseName();
      if name.Some? && Nxt(0) == ';' {
        ent := EntityLookup(rows, name.value);
        if ent.Some? {
          cur := cur + 1;
        }
      }
    }

    /** htmlParseReference: the text delivered for it. */
    method ParseReference() returns (text: string)
      requires cur < |input| && Nxt(0) == '&'
      modifies `cur
      ensures old(cur) < cur <= |input| && (text, cur - old(cur)) == Reference(TableOf(rows), input[old(cur)..])
    {
      ghost var s := input[cur..];
      if Nxt(1) == '#' {
        assert s[2..] == input[cur + 2..];
        var c := ParseCharRef();
        text := if c == 0 then "" else Utf8(c);
        return;
      }
      assert s[1..] == input[cur + 1..];
      var ent, name := ParseEntityRef();
      if name.None? {
        text := "&";
      } else if ent.None? || !(ent.value.value > 0) {
        text := "&" + name.value;
      } else {
        text := Utf8(ent.value.value);
      }
    }

    /** A reference, or one character, dropped if it is not legal. */
    method ParsePiece() returns (piece: string)
      requires cur < |input| && Nxt(0) != '<' && Nxt(0) != '\0'
      modifies `cur
      ensures old(cur) < cur <= |input|
      ensures Read(TableOf(rows), input[old(cur)..]) == piece + Read(TableOf(rows), input[cur..])
    {
      ReadAt(TableOf(rows), input, cur);
      if Nxt(0) == '&' {
        piece := ParseReference();
      } else {
        piece := if LegalChar(Nxt(0) as int) then [Nxt(0)] else "";
        cur := cur + 1;
      }
    }

    /** The part of the content loop that delivers character data and references, up to markup. */
    method ParseText() returns (text: string)
      requires cur <= |input|
      modifies `cur
      ensures text == Read(TableOf(rows), input[old(cur)..])
    {
      text := "";
      ghost var all := Read(TableOf(rows), input[cur..]);
      assert "" + all == all;
      while Nxt(0) != '<' && Nxt(0) != '\0'
        invariant cur <= |input|
        invariant text + Read(TableOf(rows), input[cur..]) == all
        decreases |input| - cur
      {
        var piece := ParsePiece();
        Assoc(text, piece, Read(TableOf(rows), input[cur..]));
        text := text + piece;
      }
      assert text + "" == text;
    }
  }
}
