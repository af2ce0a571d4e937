/** HTMLparser.c: which bytes the encoder takes for a character. */
module HtmlBytes {
  import opened Strings
  import opened HtmlEncode

  // ----- the bytes of a character are read as that character

  lemma OneByte(s: string, c: nat)
    requires c < 0x80 && s != "" && s[0] as int == c
    ensures Decode(s) == Point(c, 1)
  {
  }

  lemma TwoBytes(s: string, x: nat, y: nat)
    requires |s| >= 2 && x < 0x20 && y < 0x40 && s[0] as int == x + 0xC0 && s[1] as int == y + 0x80
    ensures Decode(s) == Point(x * 0x40 + y, 2)
  {
    LowBits(s[0] as int, s[1] as int);
  }

  lemma ThreeBytes(s: string, x: nat, y: nat, z: nat)
    requires |s| >= 3 && x < 0x10 && y < 0x40 && z < 0x40
    requires s[0] as int == x + 0xE0 && s[1] as int == y + 0x80 && s[2] as int == z + 0x80
    ensures Decode(s) == Point((x * 0x40 + y) * 0x40 + z, 3)
  {
    LowBits(s[0] as int, s[1] as int);
    LowBits(s[0] as int, s[2] as int);
    assert s[1..][1..] == s[2..];
  }

  lemma FourBytes(s: string, x: nat, y: nat, z: nat, w: nat)
    requires |s| >= 4 && x < 0x08 && y < 0x40 && z < 0x40 && w < 0x40
    requires s[0] as int == x + 0xF0 && s[1] as int == y + 0x80
    requires s[2] as int == z + 0x80 && s[3] as int == w + 0x80
    ensures Decode(s) == Point(((x * 0x40 + y) * 0x40 + z) * 0x40 + w, 4)
  {
    LowBits(s[0] as int, s[1] as int);
    LowBits(s[0] as int, s[2] as int);
    LowBits(s[0] as int, s[3] as int);
    assert s[1..][1..] == s[2..] && s[2..][1..] == s[3..];
  }

  /** Whatever follows its bytes, a code point of up to 21 bits is read as itself. */
  lemma PointRead(c: nat, rest: string)
    requires c < 0x200000
    ensures Decode(Utf8(c) + rest) == Point(c, |Utf8(c)|)
  {
    var s := Utf8(c) + rest;
    if c < 0x80 {
      OneByte(s, c);
    } else if c < 0x800 {
      TwoBytes(s, c / 0x40, c % 0x40);
    } else if c < 0x10000 {
      ThreeBytes(s, c / 0x40 / 0x40, c / 0x40 % 0x40, c % 0x40);
    } else {
      FourBytes(s, c / 0x40 / 0x40 / 0x40, c / 0x40 / 0x40 % 0x40, c / 0x40 % 0x40, c % 0x40);
    }
  }

  // ----- and which bytes are refused

  /** How long a character is by its first byte, for a byte that may come first. */
  function Announced(b: char): nat
  {
    var d := b as int;
    if d < 0x80 then 1 else if d < 0xE0 then 2 else if d < 0xF0 then 3 else 4
  }

  predicate MayBegin(b: char) { var d := b as int; d < 0x80 || 0xC0 <= d < 0xF8 }

  lemma LeadExactly(b: char)
    ensures Lead(b as int).Some? <==> MayBegin(b)
    ensures MayBegin(b) ==> Lead(b as int).value.1 == Announced(b) - 1
  {
  }

  lemma {:induction false} ContinueExactly(c: int, s: string, n: nat)
    requires n <= |s|
    ensures Continue(c, s, n).Some? <==> forall k :: 0 <= k < n ==> 0x80 <= s[k] as int < 0xC0
    decreases n
  {
    if n > 0 && Trailing(s[0] as int) {
      ContinueExactly(c * 0x40 + s[0] as int % 0x40, s[1..], n - 1);
      if forall k :: 0 <= k < n - 1 ==> 0x80 <= s[1..][k] as int < 0xC0 {
        assert forall k :: 0 < k < n ==> s[k] == s[1..][k - 1];
      }
    }
  }

  /** A call ends for malformed input exactly where a byte cannot begin a character, or where all that
      it announces is there and one of it is no trailing byte; and it waits exactly where not all of it
      is there. */
  lemma RefusedExactly(s: string)
    requires s != ""
    ensures Decode(s).Short? <==> MayBegin(s[0]) && |s| < Announced(s[0])
    ensures Decode(s).Invalid? <==>
            || !MayBegin(s[0])
            || (|s| >= Announced(s[0])
                && exists k :: 1 <= k < Announced(s[0]) && !(0x80 <= s[k] as int < 0xC0))
    ensures Decode(s).Point? ==> Decode(s).length == Announced(s[0])
  {
    LeadExactly(s[0]);
    if MayBegin(s[0]) && |s| >= Announced(s[0]) {
      var n := Announced(s[0]) - 1;
      ContinueExactly(Lead(s[0] as int).value.0, s[1..], n);
      if forall k :: 1 <= k <= n ==> 0x80 <= s[k] as int < 0xC0 {
        assert forall k :: 0 <= k < n ==> s[1..][k] == s[k + 1];
      } else {
        var k :| 1 <= k <= n && !(0x80 <= s[k] as int < 0xC0);
        assert s[1..][k - 1] == s[k];
      }
    }
  }
}
