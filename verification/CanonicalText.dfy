/** Reading canonical text: the bytes determine the canonical tree. */
module CanonicalText {
  import opened Strings
  import opened XmlTree
  import opened Canonical
  import opened QuotedUri
  import Norm = Normalize

  // ----- cutting strings

  /** No character of `x` is one of `stops`. */
  predicate Free(x: string, stops: string)
  {
    forall c :: c in x ==> c !in stops
  }

  predicate Stopped(y: string, stops: string)
  {
    y == "" || y[0] in stops
  }

  /** What comes before the first stop character. */
  function Field(s: string, stops: string): string
  {
    if s == "" || s[0] in stops then "" else [s[0]] + Field(s[1..], stops)
  }

  lemma {:induction false} FieldIs(x: string, y: string, stops: string)
    requires Free(x, stops) && Stopped(y, stops)
    ensures Field(x + y, stops) == x
    decreases |x|
  {
    if x == "" {
      assert x + y == y;
    } else {
      assert (x + y)[1..] == x[1..] + y && (x + y)[0] == x[0];
      FieldIs(x[1..], y, stops);
    }
  }

  lemma Drop(a: string, x: string, y: string)
    requires a + x == a + y
    ensures x == y
  {
    Cancel(a, x, y);
  }

  /** A field ends where a stop character comes. */
  lemma Cut(x: string, y: string, x': string, y': string, stops: string)
    requires Free(x, stops) && Free(x', stops) && Stopped(y, stops) && Stopped(y', stops)
    requires x + y == x' + y'
    ensures x == x' && y == y'
  {
    FieldIs(x, y, stops);
    FieldIs(x', y', stops);
    Drop(x, y, y');
  }

  /** `close` occurs in `x` followed by `close` at the end of `x` only. */
  predicate Closed(x: string, close: string)
  {
    x == "" || (!StartsWith(x + close, close) && Closed(x[1..], close))
  }

  /** Where `close` first occurs. */
  function CloseAt(s: string, close: string): nat
  {
    if s == "" || StartsWith(s, close) then 0 else 1 + CloseAt(s[1..], close)
  }

  lemma {:induction false} ClosedIs(x: string, r: string, close: string)
    requires Closed(x, close) && close != ""
    ensures CloseAt(x + close + r, close) == |x|
    decreases |x|
  {
    var s := x + close + r;
    if x == "" {
      assert s[..|close|] == close;
    } else {
      assert s[..|close|] == (x + close)[..|close|];
      assert s[1..] == x[1..] + close + r;
      ClosedIs(x[1..], r, close);
    }
  }

  lemma CutClosed(x: string, r: string, x': string, r': string, close: string)
    requires Closed(x, close) && Closed(x', close) && close != "" && x + close + r == x' + close + r'
    ensures x == x' && r == r'
  {
    ClosedIs(x, r, close);
    ClosedIs(x', r', close);
    assert x == (x + close + r)[..|x|] && x' == (x' + close + r')[..|x'|];
    assert r == (x + close + r)[|x + close|..] && r' == (x' + close + r')[|x' + close|..];
  }

  // ----- names

  const SPECIAL := " \t\r\n<>/=?!:&\"'"

  predicate NameLike(s: string) { s != "" && Free(s, SPECIAL) }

  predicate QNameLike(prefix: string, name: string)
  {
    (prefix == "" || NameLike(prefix)) && NameLike(name)
  }

  lemma QNameChars(prefix: string, name: string, stops: string)
    requires QNameLike(prefix, name) && ':' !in stops && forall c :: c in stops ==> c in SPECIAL
    ensures QName(prefix, name) != "" && Free(QName(prefix, name), stops)
    ensures QName(prefix, name)[0] !in SPECIAL
  {
    var q := QName(prefix, name);
    forall c | c in q ensures c !in stops {
      assert c in prefix || c == ':' || c in name;
    }
  }

  /** A qualified name is what comes before the colon, and the rest. */
  lemma QNameSplit(prefix: string, name: string)
    ensures QName(prefix, name) == (if prefix == "" then name else prefix) + (if prefix == "" then "" else ":" + name)
  {
    Assoc(prefix, ":", name);
    assert name + "" == name;
  }

  /** A qualified name is read as it was written. */
  lemma QNameRead(p: string, n: string, p': string, n': string)
    requires QNameLike(p, n) && QNameLike(p', n') && QName(p, n) == QName(p', n')
    ensures p == p' && n == n'
  {
    QNameSplit(p, n);
    QNameSplit(p', n');
    var y := if p == "" then "" else ":" + n;
    var y' := if p' == "" then "" else ":" + n';
    var x := if p == "" then n else p;
    var x' := if p' == "" then n' else p';
    assert Free(x, ":") && Free(x', ":") by { assert ':' in SPECIAL; }
    Cut(x, y, x', y', ":");
    if p != "" { Drop(":", n, n'); }
  }

  // ----- the items of a start tag

  /** A name and a value with its quotes. */
  datatype Item = Item(name: string, value: string)

  predicate Quotation(v: string)
  {
    |v| >= 2 && (v[0] == '\"' || v[0] == '\'') && v[|v| - 1] == v[0] && v[0] !in v[1..|v| - 1]
  }

  predicate ItemLike(i: Item)
  {
    Free(i.name, "=") && Quotation(i.value)
  }

  function PrintItem(i: Item): string { " " + i.name + "=" + i.value }

  function PrintItems(s: seq<Item>): string
  {
    if s == [] then "" else PrintItem(s[0]) + PrintItems(s[1..])
  }

  lemma {:induction false} PrintItemsAppend(a: seq<Item>, b: seq<Item>)
    ensures PrintItems(a + b) == PrintItems(a) + PrintItems(b)
    decreases |a|
  {
    if a == [] {
      assert a + b == b;
    } else {
      assert (a + b)[1..] == a[1..] + b;
      PrintItemsAppend(a[1..], b);
      Assoc(PrintItem(a[0]), PrintItems(a[1..]), PrintItems(b));
    }
  }

  lemma QuotationRead(v: string, y: string, v': string, y': string)
    requires Quotation(v) && Quotation(v') && v + y == v' + y'
    ensures v == v' && y == y'
  {
    var d := [v[0]];
    var x, x' := v[1..|v| - 1], v'[1..|v'| - 1];
    assert v == d + (x + d) && (v + y)[0] == v[0] && (v' + y')[0] == v'[0];
    assert v' == d + (x' + d);
    assert v + y == d + (x + (d + y)) && v' + y' == d + (x' + (d + y'));
    Drop(d, x + (d + y), x' + (d + y'));
    Cut(x, d + y, x', d + y', d);
    Drop(d, y, y');
  }

  lemma ItemRead(i: Item, y: string, i': Item, y': string)
    requires ItemLike(i) && ItemLike(i') && PrintItem(i) + y == PrintItem(i') + y'
    ensures i == i' && y == y'
  {
    assert PrintItem(i) + y == " " + (i.name + ("=" + (i.value + y)));
    assert PrintItem(i') + y' == " " + (i'.name + ("=" + (i'.value + y')));
    Drop(" ", i.name + ("=" + (i.value + y)), i'.name + ("=" + (i'.value + y')));
    Cut(i.name, "=" + (i.value + y), i'.name, "=" + (i'.value + y'), "=");
    Drop("=", i.value + y, i'.value + y');
    QuotationRead(i.value, y, i'.value, y');
  }

  lemma ItemsHead(a: seq<Item>, r: string)
    requires r != "" && r[0] == '>'
    ensures (PrintItems(a) + r)[0] == if a == [] then '>' else ' '
  {
  }

  lemma {:induction false} ItemsRead(a: seq<Item>, r: string, b: seq<Item>, s: string)
    requires (forall i :: i in a ==> ItemLike(i)) && (forall i :: i in b ==> ItemLike(i))
    requires r != "" && s != "" && r[0] == '>' && s[0] == '>'
    requires PrintItems(a) + r == PrintItems(b) + s
    ensures a == b && r == s
    decreases |a|
  {
    ItemsHead(a, r);
    ItemsHead(b, s);
    if a != [] {
      Assoc(PrintItem(a[0]), PrintItems(a[1..]), r);
      Assoc(PrintItem(b[0]), PrintItems(b[1..]), s);
      ItemRead(a[0], PrintItems(a[1..]) + r, b[0], PrintItems(b[1..]) + s);
      ItemsRead(a[1..], r, b[1..], s);
      assert a == [a[0]] + a[1..] && b == [b[0]] + b[1..];
    } else {
      assert "" + r == r && "" + s == s;
    }
  }
}
