/** Canonical text determines the canonical tree it was printed from. */
module CanonicalDecode {
  import opened Strings
  import opened XmlTree
  import opened Canonical
  import opened UriSyntax
  import opened QuotedUri
  import opened CanonicalText
  import Norm = Normalize

  // ----- what may be written

  predicate NoCR(s: string) { '\r' !in s }

  predicate LegalDecl(d: Decl)
  {
    (d.prefix == "" || NameLike(d.prefix)) && Accepted(d.href)
  }

  predicate LegalAttr(a: CAttr)
  {
    QNameLike(a.prefix, a.name) && a.prefix != "xmlns" && !(a.prefix == "" && a.name == "xmlns")
  }

  /** Names look like names, URIs have been accepted, comments and processing instructions do not contain
      what ends them, nor a carriage return; there is no text outside the document element. */
  predicate Legal(c: CNode, top: bool)
    decreases c
  {
    match c
    case CElem(prefix, name, decls, attrs, children) =>
      && QNameLike(prefix, name)
      && (forall d :: d in decls ==> LegalDecl(d)) && (forall a :: a in attrs ==> LegalAttr(a))
      && LegalList(children, false)
    case CText(_) => !top
    case CPI(target, content) => NameLike(target) && NoCR(content) && Closed(content, "?>")
    case CComment(content) => NoCR(content) && Closed(content, "-->")
  }

  predicate LegalList(cs: seq<CNode>, top: bool)
    decreases cs
  {
    cs != [] ==> Legal(cs[0], top) && LegalList(cs[1..], top)
  }

  /** No URI in the tree is written like another one. */
  ghost predicate Telling(c: CNode)
    decreases c
  {
    c.CElem? ==> (forall d :: d in c.decls ==> !Shared(d.href)) && TellingList(c.children)
  }

  ghost predicate TellingList(cs: seq<CNode>)
    decreases cs
  {
    cs != [] ==> Telling(cs[0]) && TellingList(cs[1..])
  }

  /** No text is empty, and none stands next to another. */
  predicate Apart(cs: seq<CNode>)
    decreases cs
  {
    cs != [] ==>
      && (cs[0].CText? ==> cs[0].content != "" && (|cs| > 1 ==> !cs[1].CText?))
      && (cs[0].CElem? ==> Apart(cs[0].children))
      && Apart(cs[1..])
  }

  // ----- what is not written

  function BareAttrs(s: seq<CAttr>): seq<CAttr>
  {
    if s == [] then [] else [s[0].(uri := "")] + BareAttrs(s[1..])
  }

  /** The tree without the URIs that attributes are ordered by. */
  function Bare(c: CNode): CNode
    decreases c
  {
    match c
    case CElem(prefix, name, decls, attrs, children) =>
      CElem(prefix, name, decls, BareAttrs(attrs), BareList(children))
    case _ => c
  }

  function BareList(cs: seq<CNode>): seq<CNode>
    decreases cs
  {
    if cs == [] then [] else [Bare(cs[0])] + BareList(cs[1..])
  }

  // ----- the items of a start tag

  function DeclItem(d: Decl): Item
  {
    Item(if d.prefix == "" then "xmlns" else "xmlns:" + d.prefix, Quoted(d.href))
  }

  function AttrItem(a: CAttr): Item
  {
    Item(QName(a.prefix, a.name), "\"" + Norm.Normalized(a.value, Norm.NormAttr) + "\"")
  }

  function DeclItems(ds: seq<Decl>): seq<Item>
  {
    if ds == [] then [] else [DeclItem(ds[0])] + DeclItems(ds[1..])
  }

  function AttrItems(s: seq<CAttr>): seq<Item>
  {
    if s == [] then [] else [AttrItem(s[0])] + AttrItems(s[1..])
  }

  lemma DeclIsItem(d: Decl)
    ensures PrintDecl(d) == PrintItem(DeclItem(d))
  {
    if d.prefix == "" {
      assert " " + "xmlns" + "=" == " xmlns=";
    } else {
      assert " " + ("xmlns:" + d.prefix) + "=" == " xmlns:" + d.prefix + "=";
    }
  }

  lemma {:induction false} DeclsAreItems(ds: seq<Decl>)
    ensures PrintDecls(ds) == PrintItems(DeclItems(ds))
  {
    if ds != [] {
      DeclIsItem(ds[0]);
      DeclsAreItems(ds[1..]);
      assert DeclItems(ds)[1..] == DeclItems(ds[1..]);
    }
  }

  lemma AttrIsItem(a: CAttr)
    ensures PrintAttr(a) == PrintItem(AttrItem(a))
  {
    var q := QName(a.prefix, a.name);
    var v := Norm.Normalized(a.value, Norm.NormAttr);
    assert " " + q + "=\"" == " " + q + "=" + "\"";
    Assoc(" " + q + "=", "\"", v);
    Assoc(" " + q + "=", "\"" + v, "\"");
  }

  lemma {:induction false} AttrsAreItems(s: seq<CAttr>)
    ensures PrintAttrs(s) == PrintItems(AttrItems(s))
  {
    if s != [] {
      AttrIsItem(s[0]);
      AttrsAreItems(s[1..]);
      assert AttrItems(s)[1..] == AttrItems(s[1..]);
    }
  }

  lemma {:induction false} NormalizedFree(s: string, mode: Norm.NormMode)
    ensures mode.NormText? ==> '<' !in Norm.Normalized(s, mode)
    ensures mode.NormAttr? ==> '\"' !in Norm.Normalized(s, mode)
    ensures NoCR(s) && (mode.NormPI? || mode.NormComment?) ==> Norm.Normalized(s, mode) == s
    ensures s != "" ==> Norm.Normalized(s, mode) != ""
  {
    if s != [] {
      NormalizedFree(s[1..], mode);
      assert s == [s[0]] + s[1..];
      assert mode.NormText? ==> '<' !in Norm.Escape(s[0], mode);
      assert mode.NormAttr? ==> '\"' !in Norm.Escape(s[0], mode);
    }
  }

  lemma QuotedIsQuotation(u: string)
    ensures Quotation(Quoted(u))
  {
    EscapeChars(u);
    var q := Quoted(u);
    var inner := if '\"' in u && '\'' in u then EscapeQuotes(u) else u;
    assert q[1..|q| - 1] == inner;
  }

  lemma DeclItemLike(d: Decl)
    requires LegalDecl(d)
    ensures ItemLike(DeclItem(d))
  {
    QuotedIsQuotation(d.href);
    assert '=' in SPECIAL;
  }

  lemma AttrItemLike(a: CAttr)
    requires LegalAttr(a)
    ensures ItemLike(AttrItem(a))
  {
    QNameChars(a.prefix, a.name, "=");
    NormalizedFree(a.value, Norm.NormAttr);
    var v := AttrItem(a).value;
    assert v[1..|v| - 1] == Norm.Normalized(a.value, Norm.NormAttr);
  }

  // ----- reading them back

  predicate DeclName(n: string) { Field(n, ":") == "xmlns" }

  lemma DeclItemName(d: Decl)
    ensures DeclName(DeclItem(d).name)
  {
    assert "xmlns" + "" == "xmlns" && "xmlns:" + d.prefix == "xmlns" + (":" + d.prefix);
    FieldIs("xmlns", "", ":");
    FieldIs("xmlns", ":" + d.prefix, ":");
  }

  lemma AttrNotDecl(a: CAttr)
    requires LegalAttr(a)
    ensures !DeclName(AttrItem(a).name)
  {
    QNameSplit(a.prefix, a.name);
    assert ':' in SPECIAL;
    FieldIs(if a.prefix == "" then a.name else a.prefix, if a.prefix == "" then "" else ":" + a.name, ":");
  }

  lemma DeclRead(d: Decl, e: Decl)
    requires LegalDecl(e) && !Shared(d.href) && DeclItem(d) == DeclItem(e)
    ensures d == e
  {
    if d.prefix != "" {
      assert |DeclItem(d).name| > 5;
      Drop("xmlns:", d.prefix, e.prefix);
    }
  }

  lemma AttrRead(a: CAttr, b: CAttr)
    requires LegalAttr(a) && LegalAttr(b) && AttrItem(a) == AttrItem(b)
    ensures a.(uri := "") == b.(uri := "")
  {
    QNameRead(a.prefix, a.name, b.prefix, b.name);
    BetweenQuotes("\"", Norm.Normalized(a.value, Norm.NormAttr), Norm.Normalized(b.value, Norm.NormAttr));
    Norm.NormalizeInjective(a.value, b.value, Norm.NormAttr);
  }

  lemma {:induction false} AttrsSplit(s: seq<CAttr>, t: seq<CAttr>)
    requires (forall a :: a in s ==> LegalAttr(a)) && (forall a :: a in t ==> LegalAttr(a))
    requires AttrItems(s) == AttrItems(t)
    ensures BareAttrs(s) == BareAttrs(t)
  {
    if s != [] {
      assert AttrItems(s)[0] == AttrItems(t)[0] && AttrItems(s)[1..] == AttrItems(t)[1..];
      AttrRead(s[0], t[0]);
      AttrsSplit(s[1..], t[1..]);
    }
  }

  lemma Headed(i: Item, rest: seq<Item>, tail: seq<Item>)
    ensures ([i] + rest) + tail == [i] + (rest + tail)
  {
  }

  lemma HeadsEqual(i: Item, rest: seq<Item>, j: Item, others: seq<Item>)
    requires [i] + rest == [j] + others
    ensures i == j && rest == others
  {
    assert ([i] + rest)[0] == i && ([j] + others)[0] == j;
    assert ([i] + rest)[1..] == rest && ([j] + others)[1..] == others;
  }

  /** The declarations come first. */
  lemma {:induction false} ItemsSplit(ds: seq<Decl>, s: seq<CAttr>, es: seq<Decl>, t: seq<CAttr>)
    requires (forall d :: d in ds ==> LegalDecl(d) && !Shared(d.href)) && (forall d :: d in es ==> LegalDecl(d))
    requires (forall a :: a in s ==> LegalAttr(a)) && (forall a :: a in t ==> LegalAttr(a))
    requires DeclItems(ds) + AttrItems(s) == DeclItems(es) + AttrItems(t)
    ensures ds == es && BareAttrs(s) == BareAttrs(t)
    decreases |ds|
  {
    var x, y := DeclItems(ds) + AttrItems(s), DeclItems(es) + AttrItems(t);
    if ds == [] && es == [] {
      assert x == AttrItems(s) && y == AttrItems(t);
      AttrsSplit(s, t);
    } else if ds != [] && es != [] {
      Headed(DeclItem(ds[0]), DeclItems(ds[1..]), AttrItems(s));
      Headed(DeclItem(es[0]), DeclItems(es[1..]), AttrItems(t));
      HeadsEqual(DeclItem(ds[0]), DeclItems(ds[1..]) + AttrItems(s),
                 DeclItem(es[0]), DeclItems(es[1..]) + AttrItems(t));
      DeclRead(ds[0], es[0]);
      ItemsSplit(ds[1..], s, es[1..], t);
      assert ds == [ds[0]] + ds[1..] && es == [es[0]] + es[1..];
    } else if ds != [] {
      DeclNotAttr(ds, x, t);
    } else {
      DeclNotAttr(es, y, s);
    }
  }

  lemma DeclNotAttr(ds: seq<Decl>, x: seq<Item>, t: seq<CAttr>)
    requires ds != [] && x != [] && x[0] == DeclItem(ds[0]) && forall a :: a in t ==> LegalAttr(a)
    ensures [] + AttrItems(t) != x
  {
    DeclItemName(ds[0]);
    if t != [] { AttrNotDecl(t[0]); }
  }

  // ----- what comes next

  datatype Kind = End | Tag | Characters | Instruction | Remark

  function KindOf(c: CNode): Kind
  {
    match c
    case CElem(_, _, _, _, _) => Tag
    case CText(_) => Characters
    case CPI(_, _) => Instruction
    case CComment(_) => Remark
  }

  /** The first characters tell; a line end belongs to what follows the document element. */
  function KindAt(s: string, pos: Position): Kind
  {
    var t := if pos.After? && s != "" && s[0] == '\n' then s[1..] else s;
    if |t| < 2 || t[0] != '<' then (if t != "" && t[0] != '<' then Characters else End)
    else if t[1] == '/' then End
    else if t[1] == '?' then Instruction
    else if t[1] == '!' then Remark
    else Tag
  }

  /** The text ends here, or the end tag of what is around comes. */
  predicate Ends(r: string)
  {
    r == "" || StartsWith(r, "</")
  }

  predicate Reached(pos: Position, top: bool)
  {
    top || pos.Inside?
  }

  function Onward(c: CNode, pos: Position, top: bool): Position
  {
    if top && c.CElem? then After else pos
  }

  lemma EndKind(r: string, pos: Position)
    requires Ends(r)
    ensures KindAt(r, pos) == End && Stopped(r, "<")
  {
    if r != "" { assert r[..2] == "</" && r[0] == "</"[0] && r[1] == "</"[1]; }
  }

  lemma ElemKind(c: CNode, pos: Position, top: bool, r: string)
    requires c.CElem? && Legal(c, top)
    ensures var s := PrintNode(c, pos, top) + r; KindAt(s, pos) == Tag && Stopped(s, "<")
  {
    var q := QName(c.prefix, c.name);
    QNameChars(c.prefix, c.name, "");
    ElemShape(c, pos, top, r);
    var rest := PrintItems(StartItems(c)) +
      (">" + (Print(c.children, if top then Inside else pos, false) + ("</" + (q + (">" + r)))));
    TagKind(q, rest, pos);
  }

  lemma TagKind(q: string, rest: string, pos: Position)
    requires q != "" && q[0] !in SPECIAL
    ensures KindAt("<" + (q + rest), pos) == Tag && Stopped("<" + (q + rest), "<")
  {
    var s := "<" + (q + rest);
    assert s[0] == '<' && s[1] == q[0];
    assert '/' in SPECIAL && '?' in SPECIAL && '!' in SPECIAL;
  }

  lemma NodeKind(c: CNode, pos: Position, top: bool, r: string)
    requires Legal(c, top) && Reached(pos, top) && (c.CText? ==> c.content != "")
    ensures var s := PrintNode(c, pos, top) + r;
            && KindAt(s, pos) == KindOf(c)
            && (!c.CText? && pos.Inside? ==> Stopped(s, "<"))
  {
    match c {
      case CElem(_, _, _, _, _) =>
        ElemKind(c, pos, top, r);
      case CText(s) =>
        NormalizedFree(s, Norm.NormText);
      case CPI(_, _) =>
      case CComment(_) =>
    }
  }

  lemma {:induction false} ListKind(cs: seq<CNode>, pos: Position, top: bool, r: string)
    requires LegalList(cs, top) && Apart(cs) && Reached(pos, top) && Ends(r)
    ensures var s := Print(cs, pos, top) + r;
            && KindAt(s, pos) == (if cs == [] then End else KindOf(cs[0]))
            && (pos.Inside? && (cs == [] || !cs[0].CText?) ==> Stopped(s, "<"))
  {
    if cs == [] {
      assert "" + r == r;
      EndKind(r, pos);
    } else {
      var rest := Print(cs[1..], Onward(cs[0], pos, top), top);
      Assoc(PrintNode(cs[0], pos, top), rest, r);
      NodeKind(cs[0], pos, top, rest + r);
    }
  }

  // ----- elements

  function StartItems(c: CNode): seq<Item>
    requires c.CElem?
  {
    DeclItems(c.decls) + AttrItems(c.attrs)
  }

  function Spelt(q: string, items: seq<Item>, inside: string, r: string): string
  {
    "<" + (q + (PrintItems(items) + (">" + (inside + ("</" + (q + (">" + r)))))))
  }

  lemma ElemShape(c: CNode, pos: Position, top: bool, r: string)
    requires c.CElem?
    ensures PrintNode(c, pos, top) + r ==
            Spelt(QName(c.prefix, c.name), StartItems(c), Print(c.children, if top then Inside else pos, false), r)
  {
    var q := QName(c.prefix, c.name);
    DeclsAreItems(c.decls);
    AttrsAreItems(c.attrs);
    PrintItemsAppend(DeclItems(c.decls), AttrItems(c.attrs));
    Regroup(q, PrintDecls(c.decls), PrintAttrs(c.attrs), Print(c.children, if top then Inside else pos, false), r);
  }

  lemma Regroup(q: string, d: string, a: string, inside: string, r: string)
    ensures "<" + q + d + a + ">" + inside + "</" + q + ">" + r ==
            "<" + (q + (d + a + (">" + (inside + ("</" + (q + (">" + r)))))))
  {
  }

  lemma ItemsLike(c: CNode, top: bool)
    requires c.CElem? && Legal(c, top)
    ensures forall i :: i in StartItems(c) ==> ItemLike(i)
  {
    DeclItemsLike(c.decls);
    AttrItemsLike(c.attrs);
  }

  lemma {:induction false} DeclItemsLike(ds: seq<Decl>)
    requires forall d :: d in ds ==> LegalDecl(d)
    ensures forall i :: i in DeclItems(ds) ==> ItemLike(i)
  {
    if ds != [] {
      DeclItemLike(ds[0]);
      DeclItemsLike(ds[1..]);
    }
  }

  lemma {:induction false} AttrItemsLike(s: seq<CAttr>)
    requires forall a :: a in s ==> LegalAttr(a)
    ensures forall i :: i in AttrItems(s) ==> ItemLike(i)
  {
    if s != [] {
      AttrItemLike(s[0]);
      AttrItemsLike(s[1..]);
    }
  }

  /** The start tag, up to what is inside. */
  lemma TagRead(p: string, n: string, items: seq<Item>, y: string, p': string, n': string, items': seq<Item>,
      y': string)
    requires QNameLike(p, n) && QNameLike(p', n')
    requires (forall i :: i in items ==> ItemLike(i)) && (forall i :: i in items' ==> ItemLike(i))
    requires "<" + (QName(p, n) + (PrintItems(items) + (">" + y)))
          == "<" + (QName(p', n') + (PrintItems(items') + (">" + y')))
    ensures p == p' && n == n' && items == items' && y == y'
  {
    var x, x' := PrintItems(items) + (">" + y), PrintItems(items') + (">" + y');
    Drop("<", QName(p, n) + x, QName(p', n') + x');
    QNameChars(p, n, " >");
    QNameChars(p', n', " >");
    ItemsHead(items, ">" + y);
    ItemsHead(items', ">" + y');
    Cut(QName(p, n), x, QName(p', n'), x', " >");
    QNameRead(p, n, p', n');
    ItemsRead(items, ">" + y, items', ">" + y');
    Drop(">", y, y');
  }

  lemma {:induction false} ElemRead(c: CNode, d: CNode, pos: Position, top: bool, r: string, s: string)
    requires c.CElem? && d.CElem? && Legal(c, top) && Legal(d, top) && Telling(c) && Reached(pos, top)
    requires Apart(c.children) && Apart(d.children)
    requires PrintNode(c, pos, top) + r == PrintNode(d, pos, top) + s
    ensures Bare(c) == Bare(d) && r == s
    decreases c, 0
  {
    ElemShape(c, pos, top, r);
    ElemShape(d, pos, top, s);
    ItemsLike(c, top);
    ItemsLike(d, top);
    var q, q' := QName(c.prefix, c.name), QName(d.prefix, d.name);
    var inner := if top then Inside else pos;
    var end, end' := "</" + (q + (">" + r)), "</" + (q' + (">" + s));
    TagRead(c.prefix, c.name, StartItems(c), Print(c.children, inner, false) + end,
            d.prefix, d.name, StartItems(d), Print(d.children, inner, false) + end');
    ItemsSplit(c.decls, c.attrs, d.decls, d.attrs);
    assert end[..2] == "</" && end'[..2] == "</";
    PrintInjective(c.children, d.children, inner, false, end, end');
    Drop("</" + (q + ">"), r, s) by {
      Regroup3("</", q, ">", r);
      Regroup3("</", q, ">", s);
    }
  }

  lemma Regroup3(a: string, b: string, c: string, r: string)
    ensures a + (b + (c + r)) == a + (b + c) + r
  {
  }

  // ----- the other nodes

  function Lead(pos: Position): string { if pos.After? then "\n" else "" }
  function Trail(pos: Position): string { if pos.Before? then "\n" else "" }

  lemma CommentShape(x: string, pos: Position, r: string)
    requires NoCR(x)
    ensures PrintComment(x, pos) + r == Lead(pos) + "<!--" + (x + "-->" + (Trail(pos) + r))
  {
    NormalizedFree(x, Norm.NormComment);
  }

  lemma CommentRead(x: string, y: string, pos: Position, r: string, s: string)
    requires NoCR(x) && NoCR(y) && Closed(x, "-->") && Closed(y, "-->")
    requires PrintComment(x, pos) + r == PrintComment(y, pos) + s
    ensures x == y && r == s
  {
    CommentShape(x, pos, r);
    CommentShape(y, pos, s);
    Drop(Lead(pos) + "<!--", x + "-->" + (Trail(pos) + r), y + "-->" + (Trail(pos) + s));
    CutClosed(x, Trail(pos) + r, y, Trail(pos) + s, "-->");
    Drop(Trail(pos), r, s);
  }

  function Gap(x: string): string { if x == "" then "" else " " }

  lemma InstructionShape(t: string, x: string, pos: Position, r: string)
    requires NoCR(x)
    ensures PrintPI(t, x, pos) + r == Lead(pos) + "<?" + (t + (Gap(x) + (x + "?>" + (Trail(pos) + r))))
  {
    NormalizedFree(x, Norm.NormPI);
    var open, close := if pos.After? then "\n<?" else "<?", if pos.Before? then "?>\n" else "?>";
    assert open == Lead(pos) + "<?" && close == "?>" + Trail(pos);
    var body := if x != "" then " " + Norm.Normalized(x, Norm.NormPI) else "";
    assert body == Gap(x) + x;
    RegroupInstruction(open, t, Gap(x), x, Trail(pos), r);
  }

  lemma RegroupInstruction(open: string, t: string, gap: string, x: string, trail: string, r: string)
    ensures open + t + (gap + x) + ("?>" + trail) + r == open + (t + (gap + (x + "?>" + (trail + r))))
  {
  }

  lemma InstructionRead(t: string, x: string, u: string, y: string, pos: Position, r: string, s: string)
    requires NameLike(t) && NameLike(u) && NoCR(x) && NoCR(y) && Closed(x, "?>") && Closed(y, "?>")
    requires PrintPI(t, x, pos) + r == PrintPI(u, y, pos) + s
    ensures t == u && x == y && r == s
  {
    InstructionShape(t, x, pos, r);
    InstructionShape(u, y, pos, s);
    var a, b := x + "?>" + (Trail(pos) + r), y + "?>" + (Trail(pos) + s);
    Drop(Lead(pos) + "<?", t + (Gap(x) + a), u + (Gap(y) + b));
    assert Free(t, " ?") && Free(u, " ?") by { assert ' ' in SPECIAL && '?' in SPECIAL; }
    Cut(t, Gap(x) + a, u, Gap(y) + b, " ?");
    assert (Gap(x) + a)[0] == if x == "" then '?' else ' ';
    assert (Gap(y) + b)[0] == if y == "" then '?' else ' ';
    Drop(Gap(x), a, b);
    CutClosed(x, Trail(pos) + r, y, Trail(pos) + s, "?>");
    Drop(Trail(pos), r, s);
  }

  lemma TextRead(x: string, y: string, r: string, s: string)
    requires Stopped(r, "<") && Stopped(s, "<")
    requires Norm.Normalized(x, Norm.NormText) + r == Norm.Normalized(y, Norm.NormText) + s
    ensures x == y && r == s
  {
    NormalizedFree(x, Norm.NormText);
    NormalizedFree(y, Norm.NormText);
    Cut(Norm.Normalized(x, Norm.NormText), r, Norm.Normalized(y, Norm.NormText), s, "<");
    Norm.NormalizeInjective(x, y, Norm.NormText);
  }

  lemma {:induction false} NodeRead(c: CNode, d: CNode, pos: Position, top: bool, r: string, s: string)
    requires KindOf(c) == KindOf(d) && Legal(c, top) && Legal(d, top) && Telling(c) && Reached(pos, top)
    requires c.CElem? ==> Apart(c.children) && Apart(d.children)
    requires c.CText? ==> Stopped(r, "<") && Stopped(s, "<")
    requires PrintNode(c, pos, top) + r == PrintNode(d, pos, top) + s
    ensures Bare(c) == Bare(d) && r == s
    decreases c, 1
  {
    match c {
      case CElem(_, _, _, _, _) => ElemRead(c, d, pos, top, r, s);
      case CText(x) => TextRead(x, d.content, r, s);
      case CPI(t, x) => InstructionRead(t, x, d.target, d.content, pos, r, s);
      case CComment(x) => CommentRead(x, d.content, pos, r, s);
    }
  }

  // ----- whole lists

  /** The text of legal nodes determines them, but for the URIs that are not written, if none of their
      own URIs is written like another one; nothing like that is asked of the other nodes. */
  lemma {:induction false} PrintInjective(a: seq<CNode>, b: seq<CNode>, pos: Position, top: bool, r: string, s: string)
    requires LegalList(a, top) && LegalList(b, top) && TellingList(a) && Apart(a) && Apart(b) && Reached(pos, top)
    requires Ends(r) && Ends(s) && Print(a, pos, top) + r == Print(b, pos, top) + s
    ensures BareList(a) == BareList(b) && r == s
    decreases a
  {
    ListKind(a, pos, top, r);
    ListKind(b, pos, top, s);
    if a == [] {
      assert "" + r == r && "" + s == s;
    } else {
      var next := Onward(a[0], pos, top);
      var x, y := Print(a[1..], next, top), Print(b[1..], Onward(b[0], pos, top), top);
      Assoc(PrintNode(a[0], pos, top), x, r);
      Assoc(PrintNode(b[0], pos, top), y, s);
      ListKind(a[1..], next, top, r);
      ListKind(b[1..], next, top, s);
      NodeRead(a[0], b[0], pos, top, x + r, y + s);
      PrintInjective(a[1..], b[1..], next, top, r, s);
    }
  }
}
