/** Documents with the same canonical bytes mean the same, up to how their text is cut into nodes. */
module CanonicalBytes {
  import opened Strings
  import opened XmlTree
  import opened Canonical
  import opened CanonicalProps
  import U = UriSyntax
  import opened QuotedUri
  import opened CanonicalText
  import opened CanonicalDecode
  import Norm = Normalize
  import L = SortedLists

  // ----- neighbouring texts are one text

  function Glue(c: CNode, rest: seq<CNode>): seq<CNode>
  {
    if c.CText? && c.content == "" then rest
    else if c.CText? && rest != [] && rest[0].CText? then [CText(c.content + rest[0].content)] + rest[1..]
    else [c] + rest
  }

  function Joined(cs: seq<CNode>): seq<CNode>
    decreases cs
  {
    if cs == [] then [] else Glue(JoinedNode(cs[0]), Joined(cs[1..]))
  }

  function JoinedNode(c: CNode): CNode
    decreases c
  {
    if c.CElem? then c.(children := Joined(c.children)) else c
  }

  function GlueMeaning(x: Meaning, rest: seq<Meaning>): seq<Meaning>
  {
    if x.MText? && x.content == "" then rest
    else if x.MText? && rest != [] && rest[0].MText? then [MText(x.content + rest[0].content)] + rest[1..]
    else [x] + rest
  }

  /** The meaning with character data in one piece wherever nothing comes between. */
  ghost function JoinedMeaning(xs: seq<Meaning>): seq<Meaning>
    decreases xs
  {
    if xs == [] then [] else GlueMeaning(JoinedMeaningOf(xs[0]), JoinedMeaning(xs[1..]))
  }

  ghost function JoinedMeaningOf(x: Meaning): Meaning
    decreases x
  {
    if x.MElem? then x.(children := JoinedMeaning(x.children)) else x
  }

  lemma GluePrint(c: CNode, rest: seq<CNode>, pos: Position, top: bool)
    ensures Print(Glue(c, rest), pos, top) == PrintNode(c, pos, top) + Print(rest, Onward(c, pos, top), top)
  {
    if c.CText? && c.content != "" && rest != [] && rest[0].CText? {
      Norm.NormalizedConcat(c.content, rest[0].content, Norm.NormText);
      Assoc(PrintNode(c, pos, top), PrintNode(rest[0], pos, top), Print(rest[1..], pos, top));
    }
  }

  /** Joining texts changes no byte. */
  lemma {:induction false} JoinedPrint(cs: seq<CNode>, pos: Position, top: bool)
    ensures Print(Joined(cs), pos, top) == Print(cs, pos, top)
    decreases cs
  {
    if cs != [] {
      var c := cs[0];
      var d := JoinedNode(c);
      GluePrint(d, Joined(cs[1..]), pos, top);
      JoinedPrint(cs[1..], Onward(c, pos, top), top);
      if c.CElem? { JoinedPrint(c.children, if top then Inside else pos, false); }
    }
  }

  lemma GlueLegal(c: CNode, rest: seq<CNode>, top: bool)
    requires Legal(c, top) && LegalList(rest, top)
    ensures LegalList(Glue(c, rest), top)
  {
  }

  lemma {:induction false} JoinedLegal(cs: seq<CNode>, top: bool)
    requires LegalList(cs, top)
    ensures LegalList(Joined(cs), top)
    decreases cs
  {
    if cs != [] {
      JoinedLegal(cs[1..], top);
      if cs[0].CElem? { JoinedLegal(cs[0].children, false); }
      GlueLegal(JoinedNode(cs[0]), Joined(cs[1..]), top);
    }
  }

  lemma {:induction false} JoinedTelling(cs: seq<CNode>)
    requires TellingList(cs)
    ensures TellingList(Joined(cs))
    decreases cs
  {
    if cs != [] {
      JoinedTelling(cs[1..]);
      if cs[0].CElem? { JoinedTelling(cs[0].children); }
      GlueTelling(JoinedNode(cs[0]), Joined(cs[1..]));
    }
  }

  lemma GlueTelling(c: CNode, rest: seq<CNode>)
    requires Telling(c) && TellingList(rest)
    ensures TellingList(Glue(c, rest))
  {
  }

  lemma GlueApart(c: CNode, rest: seq<CNode>)
    requires Apart(rest) && (c.CElem? ==> Apart(c.children))
    ensures Apart(Glue(c, rest))
  {
  }

  lemma {:induction false} JoinedApart(cs: seq<CNode>)
    ensures Apart(Joined(cs))
    decreases cs
  {
    if cs != [] {
      JoinedApart(cs[1..]);
      if cs[0].CElem? { JoinedApart(cs[0].children); }
      GlueApart(JoinedNode(cs[0]), Joined(cs[1..]));
    }
  }

  lemma GlueRead(m: Mode, env: Env, c: CNode, rest: seq<CNode>)
    ensures Read(m, env, Glue(c, rest)) == GlueMeaning(ReadNode(m, env, c), Read(m, env, rest))
  {
  }

  lemma {:induction false} JoinedRead(m: Mode, env: Env, cs: seq<CNode>)
    ensures Read(m, env, Joined(cs)) == JoinedMeaning(Read(m, env, cs))
    decreases cs
  {
    if cs != [] {
      JoinedRead(m, env, cs[1..]);
      if cs[0].CElem? { JoinedRead(m, BindAll(env, cs[0].decls), cs[0].children); }
      GlueRead(m, env, JoinedNode(cs[0]), Joined(cs[1..]));
    }
  }

  // ----- what is not written is not read

  lemma {:induction false} BareAttrsRead(s: seq<CAttr>, env: Env)
    ensures ReadAttrs(BareAttrs(s), env) == ReadAttrs(s, env)
  {
    if s != [] {
      BareAttrsRead(s[1..], env);
      assert s == [s[0]] + s[1..];
      ReadAttrsHead(s[0], s[1..], env);
      ReadAttrsHead(s[0].(uri := ""), BareAttrs(s[1..]), env);
    }
  }

  lemma ReadAttrsHead(a: CAttr, s: seq<CAttr>, env: Env)
    ensures ReadAttrs([a] + s, env) == ReadAttrs([a], env) + ReadAttrs(s, env)
  {
  }

  lemma {:induction false} BareRead(m: Mode, env: Env, cs: seq<CNode>)
    ensures Read(m, env, BareList(cs)) == Read(m, env, cs)
    decreases cs
  {
    if cs != [] {
      BareRead(m, env, cs[1..]);
      if cs[0].CElem? {
        var inner := BindAll(env, cs[0].decls);
        BareRead(m, inner, cs[0].children);
        BareAttrsRead(cs[0].attrs, inner);
      }
    }
  }

  /** Legal canonical trees with the same text are read alike, if one of them has no URI that is written
      like another one. */
  lemma SameReading(m: Mode, a: seq<CNode>, b: seq<CNode>)
    requires LegalList(a, true) && LegalList(b, true) && TellingList(a)
    requires Print(a, Before, true) == Print(b, Before, true)
    ensures JoinedMeaning(Read(m, map[], a)) == JoinedMeaning(Read(m, map[], b))
  {
    JoinedPrint(a, Before, true);
    JoinedPrint(b, Before, true);
    JoinedLegal(a, true);
    JoinedLegal(b, true);
    JoinedTelling(a);
    JoinedApart(a);
    JoinedApart(b);
    assert Print(a, Before, true) + "" == Print(b, Before, true) + "";
    PrintInjective(Joined(a), Joined(b), Before, true, "", "");
    BareRead(m, map[], Joined(a));
    BareRead(m, map[], Joined(b));
    JoinedRead(m, map[], a);
    JoinedRead(m, map[], b);
  }

  // ----- the same for source documents

  predicate PrefixLike(p: string) { p == "" || NameLike(p) }

  predicate PlainElem(e: Elem)
  {
    && QNameLike(NsPrefix(e.ns), e.name)
    && (forall a :: a in e.attrs ==> LegalAttr(ToCAttr(a)))
    && (forall d :: d in e.nsDef ==> PrefixLike(d.prefix))
  }

  /** What a parser delivers. */
  predicate Plain(node: Node, top: bool)
    decreases node
  {
    match node
    case Element(e, children) => PlainElem(e) && PlainList(children, false)
    case Text(_) => !top
    case CData(_) => !top
    case PI(t, s) => NameLike(t) && NoCR(s) && Closed(s, "?>")
    case Comment(s) => NoCR(s) && Closed(s, "-->")
    case Declaration => true
    case EntityRef => true
  }

  predicate PlainList(nodes: seq<Node>, top: bool)
    decreases nodes
  {
    nodes != [] ==> Plain(nodes[0], top) && PlainList(nodes[1..], top)
  }

  /** A document as a parser delivers it, and which the canonicaliser does not refuse. */
  ghost predicate Document(doc: seq<Node>)
  {
    WellFormedList([], doc) && PlainList(doc, true) && ProcessableList(doc)
  }

  /** No URI declared in it is written like another one that is accepted. */
  ghost predicate TellingNode(node: Node)
    decreases node
  {
    node.Element? ==> (forall d :: d in node.elem.nsDef ==> !Shared(d.href)) && TellingNodes(node.children)
  }

  ghost predicate TellingNodes(nodes: seq<Node>)
    decreases nodes
  {
    nodes != [] ==> TellingNode(nodes[0]) && TellingNodes(nodes[1..])
  }

  // ----- which URIs are written

  ghost predicate DeclaredBy(e: Elem, h: string) { exists d :: d in e.nsDef && d.href == h }

  /** The path declares that URI, or it is none. */
  ghost predicate Declared(path: Path, h: string)
  {
    h == "" || exists e :: e in path && DeclaredBy(e, h)
  }

  ghost predicate DeclaredEnv(path: Path, env: Env)
  {
    forall p :: p in env ==> PrefixLike(p) && Declared(path, env[p])
  }

  lemma {:induction false} BindAllDeclared(path: Path, env: Env, ds: seq<Decl>)
    requires DeclaredEnv(path, env) && forall d :: d in ds ==> PrefixLike(d.prefix) && Declared(path, d.href)
    ensures DeclaredEnv(path, BindAll(env, ds))
    decreases |ds|
  {
    if ds != [] { BindAllDeclared(path, Bind(env, ds[0]), ds[1..]); }
  }

  lemma {:induction false} InScopeDeclared(path: Path)
    requires forall e :: e in path ==> PlainElem(e)
    ensures DeclaredEnv(path, InScope(path))
  {
    if path != [] {
      InScopeDeclared(Parent(path));
      var e := Current(path);
      assert e in path;
      forall d | d in ToDecls(e.nsDef) ensures PrefixLike(d.prefix) && Declared(path, d.href) {
        var i :| 0 <= i < |e.nsDef| && ToDecls(e.nsDef)[i] == d;
        assert e.nsDef[i] in e.nsDef && DeclaredBy(e, d.href);
      }
      assert DeclaredEnv(path, InScope(Parent(path)));
      BindAllDeclared(path, InScope(Parent(path)), ToDecls(e.nsDef));
    }
  }

  lemma UtilizedPlain(e: Elem, p: string)
    requires PlainElem(e) && p in Utilized(e)
    ensures PrefixLike(p)
  {
    if p != NsPrefix(e.ns) {
      var a :| a in e.attrs && a.ns.Some? && a.ns.value.prefix == p;
      assert LegalAttr(ToCAttr(a));
    }
  }

  /** Only declared URIs are written, and for names that look like prefixes. */
  lemma DeclsDeclared(exclusive: bool, path: Path)
    requires path != [] && forall e :: e in path ==> PlainElem(e)
    ensures forall d :: d in DeclsOf(exclusive, path) ==> PrefixLike(d.prefix) && Declared(path, d.href)
  {
    DeclsOfListed(exclusive, path);
    InScopeDeclared(path);
    InScopeDeclared(Parent(path));
    InclusiveReadBack(Parent(path));
    forall d | d in DeclsOf(exclusive, path) ensures PrefixLike(d.prefix) && Declared(path, d.href) {
      assert d.prefix != "xml";
      if exclusive { UtilizedPlain(Current(path), d.prefix); }
    }
  }

  lemma DeclsLegal(exclusive: bool, path: Path)
    requires path != [] && forall e :: e in path ==> PlainElem(e) && AbsoluteUris(e)
    ensures forall d :: d in DeclsOf(exclusive, path) ==> LegalDecl(d)
  {
    DeclsDeclared(exclusive, path);
  }

  lemma SharedNone()
    ensures !Shared("")
  {
    forall v | Quoted(v) == Quoted("") ensures v == "" { Unique("", v); }
  }

  lemma DeclsTelling(exclusive: bool, path: Path)
    requires path != [] && forall e :: e in path ==> PlainElem(e) && forall d :: d in e.nsDef ==> !Shared(d.href)
    ensures forall d :: d in DeclsOf(exclusive, path) ==> !Shared(d.href)
  {
    DeclsDeclared(exclusive, path);
    SharedNone();
  }

  lemma AttrsPlain(path: Path)
    requires path != [] && WellFormedElem(path) && PlainElem(Current(path))
    ensures forall a :: a in AttrsOf(Current(path)) ==> LegalAttr(a)
  {
    AttrsOfListed(path);
  }

  lemma {:induction false} LegalAppend(a: seq<CNode>, b: seq<CNode>, top: bool)
    requires LegalList(a, top) && LegalList(b, top)
    ensures LegalList(a + b, top)
    decreases |a|
  {
    if a == [] {
      assert a + b == b;
    } else {
      assert (a + b)[1..] == a[1..] + b;
      LegalAppend(a[1..], b, top);
    }
  }

  lemma {:induction false} CanonLegal(m: Mode, path: Path, node: Node, top: bool)
    requires (forall e :: e in path ==> PlainElem(e) && AbsoluteUris(e)) && WellFormed(path, node)
    requires Plain(node, top) && Processable(node)
    ensures LegalList(CanonNode(m, path, node), top)
    decreases node
  {
    match node {
      case Element(e, children) =>
        var p := path + [e];
        DeclsLegal(m.exclusive, p);
        AttrsPlain(p);
        CanonLegalList(m, p, children, false);
      case _ =>
    }
  }

  lemma {:induction false} CanonLegalList(m: Mode, path: Path, nodes: seq<Node>, top: bool)
    requires (forall e :: e in path ==> PlainElem(e) && AbsoluteUris(e)) && WellFormedList(path, nodes)
    requires PlainList(nodes, top) && ProcessableList(nodes)
    ensures LegalList(CanonList(m, path, nodes), top)
    decreases nodes
  {
    if nodes != [] {
      CanonLegal(m, path, nodes[0], top);
      CanonLegalList(m, path, nodes[1..], top);
      LegalAppend(CanonNode(m, path, nodes[0]), CanonList(m, path, nodes[1..]), top);
    }
  }

  lemma {:induction false} TellingAppend(a: seq<CNode>, b: seq<CNode>)
    requires TellingList(a) && TellingList(b)
    ensures TellingList(a + b)
    decreases |a|
  {
    if a == [] {
      assert a + b == b;
    } else {
      assert (a + b)[1..] == a[1..] + b;
      TellingAppend(a[1..], b);
    }
  }

  lemma {:induction false} CanonTelling(m: Mode, path: Path, node: Node, top: bool)
    requires forall e :: e in path ==> PlainElem(e) && forall d :: d in e.nsDef ==> !Shared(d.href)
    requires Plain(node, top) && TellingNode(node)
    ensures TellingList(CanonNode(m, path, node))
    decreases node
  {
    match node {
      case Element(e, children) =>
        var p := path + [e];
        DeclsTelling(m.exclusive, p);
        CanonTellingList(m, p, children, false);
      case _ =>
    }
  }

  lemma {:induction false} CanonTellingList(m: Mode, path: Path, nodes: seq<Node>, top: bool)
    requires forall e :: e in path ==> PlainElem(e) && forall d :: d in e.nsDef ==> !Shared(d.href)
    requires PlainList(nodes, top) && TellingNodes(nodes)
    ensures TellingList(CanonList(m, path, nodes))
    decreases nodes
  {
    if nodes != [] {
      CanonTelling(m, path, nodes[0], top);
      CanonTellingList(m, path, nodes[1..], top);
      TellingAppend(CanonNode(m, path, nodes[0]), CanonList(m, path, nodes[1..]));
    }
  }

  ghost function Canonicalised(m: Mode, doc: seq<Node>): string
  {
    Print(CanonList(m, [], doc), Before, true)
  }

  /** What a document means, but for how its text is cut into nodes. */
  ghost function MeaningOf(m: Mode, doc: seq<Node>): seq<Meaning>
  {
    JoinedMeaning(SourceMeaningList(m, [], doc))
  }

  /** What canonicalisation is for: whatever has the same canonical bytes as a document means the same,
      if no URI of that document is written like another one. */
  lemma SameBytesSameMeaning(m: Mode, doc: seq<Node>, other: seq<Node>)
    requires Document(doc) && Document(other) && TellingNodes(doc)
    requires Canonicalised(m, doc) == Canonicalised(m, other)
    ensures MeaningOf(m, doc) == MeaningOf(m, other)
  {
    CanonLegalList(m, [], doc, true);
    CanonLegalList(m, [], other, true);
    CanonTellingList(m, [], doc, true);
    SameReading(m, CanonList(m, [], doc), CanonList(m, [], other));
    MeaningPreservedList(m, [], doc);
    MeaningPreservedList(m, [], other);
  }

  // ----- the condition on URIs is needed

  /** `<e xmlns="u"/>`. */
  function InDefault(u: string): Node
  {
    Element(Elem("e", Some(Ns(0, "", u)), [Ns(0, "", u)], []), [])
  }

  lemma InDefaultWritten(m: Mode, u: string)
    requires u != ""
    ensures WellFormedList([], [InDefault(u)])
    ensures Canonicalised(m, [InDefault(u)]) == "<e xmlns=" + Quoted(u) + "></e>"
  {
    var node := InDefault(u);
    assert WellFormed([], node) by { InDefaultWellFormed(u); }
    var c := CElem("", "e", [Decl("", u)], [], []);
    assert CanonList(m, [], [node]) == [c] by { InDefaultTree(m, u); }
    InDefaultPrinted(u);
  }

  lemma InDefaultScope(u: string)
    requires u != ""
    ensures InScope([InDefault(u).elem]) == map["" := u]
  {
    var path := [InDefault(u).elem];
    assert Parent(path) == [];
    assert ToDecls(Current(path).nsDef) == [Decl("", u)];
    assert BindAll(map[], [Decl("", u)]) == map["" := u];
  }

  lemma InDefaultWellFormed(u: string)
    requires u != ""
    ensures WellFormed([], InDefault(u))
  {
    var node := InDefault(u);
    var path := [node.elem];
    assert [] + [node.elem] == path;
    InDefaultScope(u);
    assert WellFormedElem(path);
    assert WellFormedList(path, node.children);
  }

  lemma InDefaultTree(m: Mode, u: string)
    requires u != ""
    ensures CanonList(m, [], [InDefault(u)]) == [CElem("", "e", [Decl("", u)], [], [])]
  {
    var node := InDefault(u);
    var path := [node.elem];
    assert [] + [node.elem] == path;
    InDefaultScope(u);
    InDefaultDecls(m.exclusive, path, Decl("", u));
    var none := set a | a in node.elem.attrs :: ToCAttr(a);
    assert none == {};
    CAttrOrder();
    L.SortedIs([], none, CAttrCompare);
    assert AttrsOf(node.elem) == [] && CanonList(m, path, []) == [];
    var c := CElem("", "e", [Decl("", u)], [], []);
    assert CanonNode(m, [], node) == [c];
    assert CanonList(m, [], [node][1..]) == [];
    assert [c] + [] == [c];
  }

  lemma InDefaultPrinted(u: string)
    ensures Print([CElem("", "e", [Decl("", u)], [], [])], Before, true) == "<e xmlns=" + Quoted(u) + "></e>"
  {
    var d := Decl("", u);
    var q := Quoted(u);
    assert PrintDecls([d]) == " xmlns=" + q + "";
    assert "<" + "e" + (" xmlns=" + q) + "" + ">" + "" + "</" + "e" + ">" == "<e xmlns=" + q + "></e>";
    assert PrintNode(CElem("", "e", [d], [], []), Before, true) == "<e xmlns=" + q + "></e>";
  }

  lemma InDefaultDecls(exclusive: bool, path: Path, d: Decl)
    requires |path| == 1 && path[0] == InDefault(d.href).elem && d.prefix == "" && d.href != ""
    requires InScope(path) == map["" := d.href]
    ensures DeclsOf(exclusive, path) == [d]
  {
    var none: Env := map[];
    var S := Emitted(exclusive, path, none);
    assert Parent(path) == [] && OutEnv(exclusive, []) == none;
    assert InScope(path).Keys + none.Keys == {""};
    assert Utilized(Current(path)) == {""};
    forall x ensures x in S <==> x in {d} {
      assert Uri(InScope(path), "") == d.href && Uri(none, "") == "";
    }
    assert S == {d};
    DeclOrder();
    L.SortedIs([d], S, DeclCompare);
  }

  lemma InDefaultMeaning(m: Mode, u: string)
    ensures var r := MeaningOf(m, [InDefault(u)]);
            |r| == 1 && r[0].MElem? && r[0].uri == u
  {
    var doc := [InDefault(u)];
    var xs := SourceMeaningList(m, [], doc);
    assert doc[1..] == [] && SourceMeaningList(m, [], doc[1..]) == [];
    assert xs == SourceMeaning(m, [], doc[0]) + [];
    assert |xs| == 1 && xs[0].MElem? && xs[0].uri == u;
    assert xs[1..] == [] && JoinedMeaning([]) == [];
    assert JoinedMeaning(xs) == [JoinedMeaningOf(xs[0])];
  }

  lemma InDefaultTelling(u: string)
    requires !Shared(u)
    ensures TellingNodes([InDefault(u)])
  {
    assert [InDefault(u)][1..] == [];
  }

  lemma InDefaultDocument(u: string)
    requires u != "" && U.Accepted(u)
    ensures Document([InDefault(u)]) && (!Shared(u) ==> TellingNodes([InDefault(u)]))
  {
    var node := InDefault(u);
    InDefaultWellFormed(u);
    if !Shared(u) { InDefaultTelling(u); }
    assert NameLike("e");
    assert PlainElem(node.elem) && AbsoluteUris(node.elem);
    assert [node][1..] == [];
  }

  /** Any other document has the same bytes and another meaning, exactly if another URI that is accepted is
      written like this one. */
  lemma CollidesExactly(m: Mode, u: string)
    requires u != "" && U.Accepted(u)
    ensures Shared(u) <==>
            exists other :: && Document(other) && Canonicalised(m, other) == Canonicalised(m, [InDefault(u)])
                            && MeaningOf(m, other) != MeaningOf(m, [InDefault(u)])
  {
    var doc := [InDefault(u)];
    InDefaultDocument(u);
    if v :| v != u && U.Accepted(v) && Quoted(v) == Quoted(u) {
      SharedOther(m, u, v);
    } else {
      forall other | Document(other) && Canonicalised(m, other) == Canonicalised(m, doc)
        ensures MeaningOf(m, other) == MeaningOf(m, doc)
      {
        SameBytesSameMeaning(m, doc, other);
      }
    }
  }

  lemma SharedOther(m: Mode, u: string, v: string)
    requires u != "" && v != u && U.Accepted(v) && Quoted(v) == Quoted(u)
    ensures var other := [InDefault(v)];
            && Document(other) && Canonicalised(m, other) == Canonicalised(m, [InDefault(u)])
            && MeaningOf(m, other) != MeaningOf(m, [InDefault(u)])
  {
    if v == "" { Unique("", u); }
    InDefaultDocument(v);
    InDefaultWritten(m, u);
    InDefaultWritten(m, v);
    InDefaultMeaning(m, u);
    InDefaultMeaning(m, v);
  }

  lemma SameInDefault(m: Mode, u: string, v: string)
    requires u != "" && v != "" && Canonicalised(m, [InDefault(v)]) == Canonicalised(m, [InDefault(u)])
    ensures Quoted(v) == Quoted(u)
  {
    InDefaultWritten(m, u);
    InDefaultWritten(m, v);
    var a, b := Quoted(u) + "></e>", Quoted(v) + "></e>";
    Assoc("<e xmlns=", Quoted(u), "></e>");
    Assoc("<e xmlns=", Quoted(v), "></e>");
    Drop("<e xmlns=", a, b);
    assert |Quoted(v)| == |Quoted(u)|;
    assert Quoted(v) == b[..|Quoted(v)|] && Quoted(u) == a[..|Quoted(u)|];
  }
}
