/** The canonical form read as a document again: canonicalising it changes nothing, if the URIs written
    are read back as they were. */
module CanonicalAgain {
  import opened Strings
  import opened XmlTree
  import opened Canonical
  import opened CanonicalDecode
  import opened CanonicalBytes
  import opened ReadBack
  import opened QuotedUri
  import U = UriSyntax
  import P = CanonicalProps
  import L = SortedLists
  import Norm = Normalize

  // ----- the canonical tree as a source document

  function ToNs(d: Decl): Ns { Ns(0, d.prefix, d.href) }

  function ToNss(ds: seq<Decl>): (r: seq<Ns>)
    ensures |r| == |ds| && forall i :: 0 <= i < |ds| ==> r[i] == ToNs(ds[i])
  {
    seq(|ds|, i requires 0 <= i < |ds| => ToNs(ds[i]))
  }

  /** The declaration a name with that prefix points at. */
  function NsFor(env: Env, prefix: string): Option<Ns>
  {
    if Uri(env, prefix) == "" then None else Some(Ns(0, prefix, Uri(env, prefix)))
  }

  function ToAttr(env: Env, c: CAttr): Attr
  {
    Attr(if c.prefix == "" then None else NsFor(env, c.prefix), c.name, c.value)
  }

  function ToAttrs(env: Env, cs: seq<CAttr>): (r: seq<Attr>)
    ensures |r| == |cs| && forall i :: 0 <= i < |cs| ==> r[i] == ToAttr(env, cs[i])
  {
    seq(|cs|, i requires 0 <= i < |cs| => ToAttr(env, cs[i]))
  }

  /** An element with its names resolved, with the bindings `env` in force around it. */
  function ReparsedElem(env: Env, prefix: string, name: string, decls: seq<Decl>, attrs: seq<CAttr>): Elem
  {
    var inner := BindAll(env, decls);
    Elem(name, NsFor(inner, prefix), ToNss(decls), ToAttrs(inner, attrs))
  }

  function Reparsed(env: Env, c: CNode): Node
    decreases c
  {
    match c
    case CElem(prefix, name, decls, attrs, children) =>
      Element(ReparsedElem(env, prefix, name, decls, attrs), ReparsedList(BindAll(env, decls), children))
    case CText(s) => Text(s)
    case CPI(t, s) => PI(t, s)
    case CComment(s) => Comment(s)
  }

  function ReparsedList(env: Env, cs: seq<CNode>): seq<Node>
    decreases cs
  {
    if cs == [] then [] else [Reparsed(env, cs[0])] + ReparsedList(env, cs[1..])
  }

  // ----- what is printed, as a parser reads it

  function ReadDecls(ds: seq<Decl>): Option<seq<Decl>>
  {
    if ds == [] then Some([])
    else
      var href, rest := ReadUri(ds[0].href), ReadDecls(ds[1..]);
      if href.None? || rest.None? then None else Some([Decl(ds[0].prefix, href.value)] + rest.value)
  }

  function ReadValues(s: seq<CAttr>): Option<seq<CAttr>>
  {
    if s == [] then Some([])
    else
      var value, rest := ReadData(Norm.Normalized(s[0].value, Norm.NormAttr), true), ReadValues(s[1..]);
      if value.None? || rest.None? then None else Some([s[0].(value := value.value)] + rest.value)
  }

  /** The tree with the URIs, values and texts that a parser reads where they are printed. */
  function AsRead(c: CNode): Option<CNode>
    decreases c
  {
    match c
    case CElem(prefix, name, decls, attrs, children) =>
      var ds, s, cs := ReadDecls(decls), ReadValues(attrs), AsReadList(children);
      if ds.None? || s.None? || cs.None? then None else Some(CElem(prefix, name, ds.value, s.value, cs.value))
    case CText(s) =>
      var text := ReadData(Norm.Normalized(s, Norm.NormText), false);
      if text.None? then None else Some(CText(text.value))
    case CPI(t, s) => Some(CPI(t, Norm.Normalized(s, Norm.NormPI)))
    case CComment(s) => Some(CComment(Norm.Normalized(s, Norm.NormComment)))
  }

  function AsReadList(cs: seq<CNode>): Option<seq<CNode>>
    decreases cs
  {
    if cs == [] then Some([])
    else
      var c, rest := AsRead(cs[0]), AsReadList(cs[1..]);
      if c.None? || rest.None? then None else Some([c.value] + rest.value)
  }

  /** What a parser makes of the canonical form of a document; none if it is not well-formed. */
  ghost function ParsedAgain(m: Mode, doc: seq<Node>): Option<seq<Node>>
  {
    var read := AsReadList(Joined(CanonList(m, [], doc)));
    if read.None? then None else Some(ReparsedList(map[], read.value))
  }

  predicate CleanNode(c: CNode)
    decreases c
  {
    match c
    case CElem(_, _, decls, attrs, children) =>
      && (forall d :: d in decls ==> Clean(d.href)) && (forall a :: a in attrs ==> Printable(a.value))
      && CleanList(children)
    case CText(s) => Printable(s)
    case CPI(_, s) => NoCR(s)
    case CComment(s) => NoCR(s)
  }

  predicate CleanList(cs: seq<CNode>)
    decreases cs
  {
    cs != [] ==> CleanNode(cs[0]) && CleanList(cs[1..])
  }

  lemma {:induction false} ReadDeclsClean(ds: seq<Decl>)
    requires forall d :: d in ds ==> Clean(d.href)
    ensures ReadDecls(ds) == Some(ds)
  {
    if ds != [] {
      ReadsBackExactly(ds[0].href);
      ReadDeclsClean(ds[1..]);
      assert ds == [ds[0]] + ds[1..];
    }
  }

  lemma {:induction false} ReadValuesClean(s: seq<CAttr>)
    requires forall a :: a in s ==> Printable(a.value)
    ensures ReadValues(s) == Some(s)
  {
    if s != [] {
      ReadNormalized(s[0].value, Norm.NormAttr);
      ReadValuesClean(s[1..]);
      assert s == [s[0]] + s[1..];
    }
  }

  lemma {:induction false} CleanAsRead(c: CNode)
    requires CleanNode(c)
    ensures AsRead(c) == Some(c)
    decreases c
  {
    match c {
      case CElem(_, _, decls, attrs, children) =>
        ReadDeclsClean(decls);
        ReadValuesClean(attrs);
        CleanListAsRead(children);
      case CText(s) => ReadNormalized(s, Norm.NormText);
      case CPI(_, s) => NormalizedFree(s, Norm.NormPI);
      case CComment(s) => NormalizedFree(s, Norm.NormComment);
    }
  }

  lemma {:induction false} CleanListAsRead(cs: seq<CNode>)
    requires CleanList(cs)
    ensures AsReadList(cs) == Some(cs)
    decreases cs
  {
    if cs != [] {
      CleanAsRead(cs[0]);
      CleanListAsRead(cs[1..]);
      assert cs == [cs[0]] + cs[1..];
    }
  }

  // ----- one element

  /** `q` is the reparsed form of `path` as far as bindings go. */
  ghost predicate Twin(exclusive: bool, path: Path, q: Path)
  {
    InScope(q) == OutEnv(exclusive, path) && OutEnv(exclusive, q) == OutEnv(exclusive, path)
  }

  lemma DeclsThere(ds: seq<Decl>)
    ensures ToDecls(ToNss(ds)) == ds
  {
  }

  /** The canonical element of the last element of `path`, read again. */
  ghost function Again(exclusive: bool, path: Path): Elem
    requires path != []
  {
    var e := Current(path);
    ReparsedElem(OutEnv(exclusive, Parent(path)), NsPrefix(e.ns), e.name, DeclsOf(exclusive, path), AttrsOf(e))
  }

  /** Its names have the prefixes and the URIs they had. */
  lemma NamesAgain(exclusive: bool, path: Path)
    requires path != [] && WellFormedPath(path)
    ensures var e, f := Current(path), Again(exclusive, path);
            && NsPrefix(f.ns) == NsPrefix(e.ns) && NsUri(f.ns) == NsUri(e.ns)
            && CAttrs(f) == CAttrs(e)
  {
    var e, f := Current(path), Again(exclusive, path);
    var env := OutEnv(exclusive, path);
    P.NamesPreserved(Mode(exclusive, true), path);
    P.AttrsOfListed(path);
    var cs := AttrsOf(e);
    forall i | 0 <= i < |cs| ensures ToCAttr(f.attrs[i]) == cs[i] {
      assert cs[i] in cs;
      AttrBound(exclusive, path, cs[i]);
    }
    forall c | c in CAttrs(e) ensures c in CAttrs(f) {
      assert c in cs;
      var i :| 0 <= i < |cs| && cs[i] == c;
      assert f.attrs[i] in f.attrs;
    }
  }

  /** The URI an attribute is ordered by is the one its prefix has in the output. */
  lemma AttrBound(exclusive: bool, path: Path, c: CAttr)
    requires path != [] && WellFormedPath(path) && c in AttrsOf(Current(path))
    ensures if c.prefix == "" then c.uri == "" else c.uri != "" && Uri(OutEnv(exclusive, path), c.prefix) == c.uri
  {
    var e := Current(path);
    P.AttrsOfListed(path);
    assert c in set a | a in e.attrs :: ToCAttr(a);
    var a :| a in e.attrs && ToCAttr(a) == c;
    if a.ns.Some? {
      P.ResolvedUri(path, a.ns.value);
      UsedBound(exclusive, path, c.prefix);
    }
  }

  lemma UsedBound(exclusive: bool, path: Path, p: string)
    requires path != [] && p in Utilized(Current(path))
    ensures Uri(OutEnv(exclusive, path), p) == Uri(InScope(path), p)
  {
    if exclusive { P.ExclusiveReadBack(path, p); } else { P.InclusiveReadBack(path); }
  }

  /** The reparsed element uses the same prefixes, declares the same, and binds the same. */
  lemma ElementAgain(exclusive: bool, path: Path, q: Path)
    requires path != [] && WellFormedPath(path) && Twin(exclusive, Parent(path), q)
    ensures var f := Again(exclusive, path);
            && Twin(exclusive, path, q + [f])
            && DeclsOf(exclusive, q + [f]) == DeclsOf(exclusive, path)
            && AttrsOf(f) == AttrsOf(Current(path))
            && NsPrefix(f.ns) == NsPrefix(Current(path).ns) && f.name == Current(path).name
  {
    var f := Again(exclusive, path);
    var r := q + [f];
    assert Parent(r) == q && Current(r) == f;
    DeclsThere(DeclsOf(exclusive, path));
    assert InScope(r) == OutEnv(exclusive, path);
    NamesAgain(exclusive, path);
    if exclusive {
      SameUses(path, f);
      forall p | p in Utilized(f) ensures Uri(InScope(r), p) == Uri(InScope(path), p) {
        UsedBound(true, path, p);
      }
    } else {
      P.InclusiveReadBack(path);
      P.InclusiveReadBack(Parent(path));
    }
    assert Emitted(exclusive, r, OutEnv(exclusive, q)) == Emitted(exclusive, path, OutEnv(exclusive, Parent(path)));
  }

  ghost function CAttrs(e: Elem): set<CAttr> { set a | a in e.attrs :: ToCAttr(a) }

  lemma UsesByAttrs(e: Elem)
    requires forall a :: a in e.attrs && a.ns.Some? ==> a.ns.value.prefix != ""
    ensures Utilized(e) == {NsPrefix(e.ns)} + (set c | c in CAttrs(e) && c.prefix != "" :: c.prefix)
  {
    forall p | p in Utilized(e) && p != NsPrefix(e.ns)
      ensures p in set c | c in CAttrs(e) && c.prefix != "" :: c.prefix
    {
      var a :| a in e.attrs && a.ns.Some? && a.ns.value.prefix == p;
      assert ToCAttr(a) in CAttrs(e);
    }
  }

  lemma SameUses(path: Path, f: Elem)
    requires path != [] && WellFormedElem(path) && f == Again(true, path)
    requires NsPrefix(f.ns) == NsPrefix(Current(path).ns) && CAttrs(f) == CAttrs(Current(path))
    ensures Utilized(f) == Utilized(Current(path))
  {
    UsesByAttrs(f);
    UsesByAttrs(Current(path));
  }

  // ----- the whole tree

  lemma {:induction false} ReparsedAppend(env: Env, a: seq<CNode>, b: seq<CNode>)
    ensures ReparsedList(env, a + b) == ReparsedList(env, a) + ReparsedList(env, b)
    decreases |a|
  {
    if a == [] {
      assert a + b == b;
    } else {
      assert (a + b)[1..] == a[1..] + b;
      ReparsedAppend(env, a[1..], b);
    }
  }

  lemma {:induction false} CanonAppend(m: Mode, path: Path, a: seq<Node>, b: seq<Node>)
    ensures CanonList(m, path, a + b) == CanonList(m, path, a) + CanonList(m, path, b)
    decreases |a|
  {
    if a == [] {
      assert a + b == b;
    } else {
      assert (a + b)[1..] == a[1..] + b;
      CanonAppend(m, path, a[1..], b);
    }
  }

  lemma One(m: Mode, q: Path, node: Node)
    ensures CanonList(m, q, [node]) == CanonNode(m, q, node)
  {
    assert [node][1..] == [];
  }

  /** These nodes, read again below `q`, are their own canonical form. */
  ghost predicate Stable(m: Mode, env: Env, q: Path, cs: seq<CNode>)
  {
    CanonList(m, q, ReparsedList(env, cs)) == cs
  }

  lemma StableHead(m: Mode, env: Env, q: Path, c: CNode, rest: seq<CNode>)
    ensures CanonList(m, q, ReparsedList(env, [c] + rest)) ==
            CanonNode(m, q, Reparsed(env, c)) + CanonList(m, q, ReparsedList(env, rest))
  {
    assert ([c] + rest)[1..] == rest;
    assert ReparsedList(env, [c] + rest)[1..] == ReparsedList(env, rest);
  }

  lemma GlueStable(m: Mode, env: Env, q: Path, c: CNode, rest: seq<CNode>)
    requires CanonNode(m, q, Reparsed(env, c)) == [c] && Stable(m, env, q, rest)
    ensures Stable(m, env, q, Glue(c, rest))
  {
    StableHead(m, env, q, c, rest);
    if c.CText? && rest != [] && rest[0].CText? {
      var joined := CText(c.content + rest[0].content);
      assert rest == [rest[0]] + rest[1..];
      StableHead(m, env, q, rest[0], rest[1..]);
      assert CanonList(m, q, ReparsedList(env, rest[1..])) == rest[1..];
      StableHead(m, env, q, joined, rest[1..]);
    }
  }

  /** Reading the canonical form of a node again and canonicalising that gives the form again, with texts in
      one piece. */
  lemma {:induction false} NodeAgain(m: Mode, path: Path, q: Path, node: Node)
    requires WellFormedPath(path) && WellFormed(path, node) && Twin(m.exclusive, path, q)
    ensures forall c :: c in CanonNode(m, path, node) ==>
              CanonNode(m, q, Reparsed(OutEnv(m.exclusive, path), JoinedNode(c))) == [JoinedNode(c)]
    decreases node
  {
    if node.Element? {
      var p := path + [node.elem];
      assert Parent(p) == path;
      ElementAgain(m.exclusive, p, q);
      ListAgain(m, p, q + [Again(m.exclusive, p)], node.children);
    }
  }

  lemma {:induction false} ListAgain(m: Mode, path: Path, q: Path, nodes: seq<Node>)
    requires WellFormedPath(path) && WellFormedList(path, nodes) && Twin(m.exclusive, path, q)
    ensures Stable(m, OutEnv(m.exclusive, path), q, Joined(CanonList(m, path, nodes)))
    decreases nodes
  {
    if nodes != [] {
      var env := OutEnv(m.exclusive, path);
      var head, tail := CanonNode(m, path, nodes[0]), CanonList(m, path, nodes[1..]);
      NodeAgain(m, path, q, nodes[0]);
      ListAgain(m, path, q, nodes[1..]);
      if head == [] {
        assert head + tail == tail;
      } else {
        assert head == [head[0]] && (head + tail)[1..] == tail && (head + tail)[0] == head[0];
        GlueStable(m, env, q, JoinedNode(head[0]), Joined(tail));
      }
    }
  }

  // ----- the reparsed tree is namespace-well-formed

  /** Every declaration is one that `ToNs` made. */
  ghost predicate Made(q: Path)
  {
    q != [] ==> (forall d :: d in Current(q).nsDef ==> d.addr == 0) && Made(Parent(q))
  }

  lemma {:induction false} NearestMade(q: Path, p: string)
    requires Made(q) && Nearest(q, p).Some?
    ensures Nearest(q, p).value.addr == 0 && Nearest(q, p).value.prefix == p
  {
    FindDefFound(Current(q).nsDef, p);
    if FindDef(Current(q).nsDef, p).None? { NearestMade(Parent(q), p); }
  }

  /** A prefix that is bound is bound by the declaration a name with it points at. */
  lemma PointsAtNearest(r: Path, p: string)
    requires r != [] && Made(r) && WellFormedPath(Parent(r)) && UniquePrefixes(ToDecls(Current(r).nsDef))
    requires Uri(InScope(r), p) != ""
    ensures Resolves(r, Ns(0, p, Uri(InScope(r), p)))
  {
    if p != "xml" {
      UriIsNearest(Parent(r), p);
      UriIsNearestBelow(r, p);
      NearestMade(r, p);
    }
  }

  /** No declaration takes a prefix away, and none is of the reserved prefix. */
  lemma WrittenLegal(exclusive: bool, path: Path, d: Decl)
    requires path != [] && WellFormedPath(path) && d in DeclsOf(exclusive, path)
    ensures d.prefix != "xml" && (d.prefix != "" ==> d.href != "")
  {
    P.DeclsOfListed(exclusive, path);
    var e := Current(path);
    if d.prefix != "" && d.href == "" && d.prefix != "xml" {
      if exclusive {
        var ns := if NsPrefix(e.ns) == d.prefix then e.ns.value
                  else (var a :| a in e.attrs && a.ns.Some? && a.ns.value.prefix == d.prefix; a.ns.value);
        P.ResolvedUri(path, ns);
      } else {
        P.InclusiveReadBack(Parent(path));
        UriIsNearest(Parent(path), d.prefix);
        UriIsNearest(path, d.prefix);
        FindDefFound(e.nsDef, d.prefix);
      }
    }
  }

  lemma DefsAgain(exclusive: bool, path: Path)
    requires path != [] && WellFormedPath(path)
    ensures var defs := Again(exclusive, path).nsDef;
            && UniquePrefixes(ToDecls(defs))
            && forall d :: d in defs ==> d.addr == 0 && LegalDef(d)
  {
    var ds := DeclsOf(exclusive, path);
    var defs := Again(exclusive, path).nsDef;
    DeclsThere(ds);
    P.DeclsOfListed(exclusive, path);
    forall d | d in defs ensures d.addr == 0 && LegalDef(d) {
      var i :| 0 <= i < |defs| && defs[i] == d;
      assert ds[i] in ds;
      WrittenLegal(exclusive, path, ds[i]);
    }
  }

  /** Different attributes keep different expanded names. */
  lemma AttrsDiffer(exclusive: bool, path: Path, i: nat, j: nat)
    requires path != [] && WellFormedPath(path) && i < j < |AttrsOf(Current(path))|
    ensures var attrs := Again(exclusive, path).attrs;
            (NsUri(attrs[i].ns), attrs[i].name) != (NsUri(attrs[j].ns), attrs[j].name)
  {
    var cs := AttrsOf(Current(path));
    P.AttrsOfListed(path);
    L.AscendingAt(cs, CAttrCompare, i, j);
    assert cs[i] in cs && cs[j] in cs;
    AttrBound(exclusive, path, cs[i]);
    AttrBound(exclusive, path, cs[j]);
    CompareSound(cs[i].uri, cs[j].uri);
    CompareSound(cs[i].name, cs[j].name);
  }

  lemma ElementWellFormed(exclusive: bool, path: Path, q: Path)
    requires path != [] && WellFormedPath(path) && Twin(exclusive, Parent(path), q)
    requires WellFormedPath(q) && Made(q)
    ensures var r := q + [Again(exclusive, path)]; WellFormedPath(r) && Made(r)
  {
    var e, f := Current(path), Again(exclusive, path);
    var r := q + [f];
    assert Parent(r) == q && Current(r) == f;
    DefsAgain(exclusive, path);
    ElementAgain(exclusive, path, q);
    var env := OutEnv(exclusive, path);
    if f.ns.Some? { PointsAtNearest(r, f.ns.value.prefix); }
    P.NamesPreserved(Mode(exclusive, true), path);
    var cs := AttrsOf(e);
    forall a | a in f.attrs && a.ns.Some? ensures a.ns.value.prefix != "" && Resolves(r, a.ns.value) {
      var i :| 0 <= i < |cs| && f.attrs[i] == a;
      PointsAtNearest(r, cs[i].prefix);
    }
    forall i, j | 0 <= i < j < |f.attrs|
      ensures (NsUri(f.attrs[i].ns), f.attrs[i].name) != (NsUri(f.attrs[j].ns), f.attrs[j].name)
    {
      AttrsDiffer(exclusive, path, i, j);
    }
    assert WellFormedElem(r);
  }

  ghost predicate Sound(q: Path, nodes: seq<Node>)
  {
    WellFormedList(q, nodes) && ProcessableList(nodes)
  }

  lemma SoundHead(q: Path, node: Node, rest: seq<Node>)
    ensures Sound(q, [node] + rest) <==> WellFormed(q, node) && Processable(node) && Sound(q, rest)
  {
    assert ([node] + rest)[1..] == rest && ([node] + rest)[0] == node;
  }

  lemma GlueSound(env: Env, q: Path, c: CNode, rest: seq<CNode>)
    requires WellFormed(q, Reparsed(env, c)) && Processable(Reparsed(env, c)) && Sound(q, ReparsedList(env, rest))
    ensures Sound(q, ReparsedList(env, Glue(c, rest)))
  {
    assert ([c] + rest)[1..] == rest;
    SoundHead(q, Reparsed(env, c), ReparsedList(env, rest));
    if c.CText? && rest != [] && rest[0].CText? {
      var joined := CText(c.content + rest[0].content);
      SoundHead(q, Reparsed(env, rest[0]), ReparsedList(env, rest[1..]));
      SoundHead(q, Reparsed(env, joined), ReparsedList(env, rest[1..]));
      assert ([joined] + rest[1..])[1..] == rest[1..];
    }
  }

  /** The URIs written have been accepted. */
  lemma UrisAgain(exclusive: bool, path: Path)
    requires path != [] && forall e :: e in path ==> PlainElem(e) && AbsoluteUris(e)
    ensures AbsoluteUris(Again(exclusive, path))
  {
    DeclsDeclared(exclusive, path);
    var ds := DeclsOf(exclusive, path);
    forall d | d in Again(exclusive, path).nsDef ensures U.Accepted(d.href) {
      var i :| 0 <= i < |ds| && ToNs(ds[i]) == d;
      assert ds[i] in ds;
    }
  }

  lemma {:induction false} NodeWellFormed(m: Mode, path: Path, q: Path, node: Node, top: bool)
    requires WellFormedPath(path) && WellFormed(path, node) && Twin(m.exclusive, path, q)
    requires WellFormedPath(q) && Made(q) && Plain(node, top) && Processable(node)
    requires forall e :: e in path ==> PlainElem(e) && AbsoluteUris(e)
    ensures forall c :: c in CanonNode(m, path, node) ==>
              var again := Reparsed(OutEnv(m.exclusive, path), JoinedNode(c));
              WellFormed(q, again) && Processable(again)
    decreases node
  {
    if node.Element? {
      var p := path + [node.elem];
      assert Parent(p) == path;
      ElementAgain(m.exclusive, p, q);
      ElementWellFormed(m.exclusive, p, q);
      UrisAgain(m.exclusive, p);
      ListWellFormed(m, p, q + [Again(m.exclusive, p)], node.children, false);
    }
  }

  lemma {:induction false} ListWellFormed(m: Mode, path: Path, q: Path, nodes: seq<Node>, top: bool)
    requires WellFormedPath(path) && WellFormedList(path, nodes) && Twin(m.exclusive, path, q)
    requires WellFormedPath(q) && Made(q) && PlainList(nodes, top) && ProcessableList(nodes)
    requires forall e :: e in path ==> PlainElem(e) && AbsoluteUris(e)
    ensures Sound(q, ReparsedList(OutEnv(m.exclusive, path), Joined(CanonList(m, path, nodes))))
    decreases nodes
  {
    if nodes != [] {
      var env := OutEnv(m.exclusive, path);
      var head, tail := CanonNode(m, path, nodes[0]), CanonList(m, path, nodes[1..]);
      NodeWellFormed(m, path, q, nodes[0], top);
      ListWellFormed(m, path, q, nodes[1..], top);
      if head == [] {
        assert head + tail == tail;
      } else {
        assert head == [head[0]] && (head + tail)[1..] == tail && (head + tail)[0] == head[0];
        GlueSound(env, q, JoinedNode(head[0]), Joined(tail));
      }
    }
  }

  // ----- documents

  /** URIs are read back as they were, and the characters can be written. */
  predicate CleanSource(node: Node)
    decreases node
  {
    match node
    case Element(e, children) =>
      && (forall d :: d in e.nsDef ==> Clean(d.href)) && (forall a :: a in e.attrs ==> Printable(a.value))
      && CleanSources(children)
    case Text(s) => Printable(s)
    case CData(s) => Printable(s)
    case _ => true
  }

  predicate CleanSources(nodes: seq<Node>)
    decreases nodes
  {
    nodes != [] ==> CleanSource(nodes[0]) && CleanSources(nodes[1..])
  }

  predicate CleanElem(e: Elem) { PlainElem(e) && forall d :: d in e.nsDef ==> Clean(d.href) }

  lemma CleanTag(exclusive: bool, path: Path)
    requires path != [] && WellFormedElem(path) && forall e :: e in path ==> CleanElem(e)
    requires forall a :: a in Current(path).attrs ==> Printable(a.value)
    ensures forall d :: d in DeclsOf(exclusive, path) ==> Clean(d.href)
    ensures forall a :: a in AttrsOf(Current(path)) ==> Printable(a.value)
  {
    DeclsDeclared(exclusive, path);
    P.AttrsOfListed(path);
  }

  lemma {:induction false} CanonClean(m: Mode, path: Path, nodes: seq<Node>, top: bool)
    requires (forall e :: e in path ==> CleanElem(e)) && WellFormedList(path, nodes)
    requires PlainList(nodes, top) && CleanSources(nodes)
    ensures CleanList(CanonList(m, path, nodes))
    decreases nodes
  {
    if nodes != [] {
      var head, tail := CanonNode(m, path, nodes[0]), CanonList(m, path, nodes[1..]);
      CanonClean(m, path, nodes[1..], top);
      if nodes[0].Element? {
        var p := path + [nodes[0].elem];
        CleanTag(m.exclusive, p);
        CanonClean(m, p, nodes[0].children, false);
      }
      if head != [] { assert head == [head[0]] && (head + tail)[1..] == tail; } else { assert head + tail == tail; }
    }
  }

  lemma GlueClean(c: CNode, rest: seq<CNode>)
    requires CleanNode(c) && CleanList(rest)
    ensures CleanList(Glue(c, rest))
  {
    if c.CText? && rest != [] && rest[0].CText? {
      var joined := [CText(c.content + rest[0].content)] + rest[1..];
      assert joined[1..] == rest[1..];
    }
  }

  lemma {:induction false} JoinedClean(cs: seq<CNode>)
    requires CleanList(cs)
    ensures CleanList(Joined(cs))
    decreases cs
  {
    if cs != [] {
      JoinedClean(cs[1..]);
      if cs[0].CElem? { JoinedClean(cs[0].children); }
      GlueClean(JoinedNode(cs[0]), Joined(cs[1..]));
    }
  }

  /** A document whose URIs are read back as they were: its canonical bytes are read as a document that is
      canonicalised to the same bytes. */
  lemma Idempotent(m: Mode, doc: seq<Node>)
    requires Document(doc) && CleanSources(doc)
    ensures var again := ParsedAgain(m, doc);
            && again.Some? && WellFormedList([], again.value) && ProcessableList(again.value)
            && Canonicalised(m, again.value) == Canonicalised(m, doc)
  {
    var cs := CanonList(m, [], doc);
    CanonClean(m, [], doc, true);
    JoinedClean(cs);
    CleanListAsRead(Joined(cs));
    ListAgain(m, [], [], doc);
    ListWellFormed(m, [], [], doc, true);
    JoinedPrint(cs, Before, true);
  }

  // ----- exactly when, for one element in a default namespace

  /** The element is read as the one with the URI read. */
  lemma InDefaultAgain(m: Mode, u: string)
    requires u != ""
    ensures ParsedAgain(m, [InDefault(u)]) ==
            if ReadUri(u).None? then None else Some([InDefault(ReadUri(u).value)])
  {
    var c := CElem("", "e", [Decl("", u)], [], []);
    InDefaultTree(m, u);
    assert [c][1..] == [] && Joined([c]) == [c];
    assert [Decl("", u)][1..] == [];
    var href := ReadUri(u);
    if href.Some? {
      if '\"' in u && '\'' in u { ReadEscapedShrinks(u); } else { ReadShrinks(u); }
      var w := href.value;
      var d := CElem("", "e", [Decl("", w)], [], []);
      assert ReadDecls([Decl("", u)]) == Some([Decl("", w)] + []);
      assert [Decl("", w)] + [] == [Decl("", w)];
      assert AsRead(c) == Some(d);
      assert AsReadList([c]) == Some([d] + []) && [d] + [] == [d];
      assert BindAll(map[], [Decl("", w)]) == map["" := w];
      assert ToNss([Decl("", w)]) == [Ns(0, "", w)];
      assert ReparsedElem(map[], "", "e", [Decl("", w)], []) == InDefault(w).elem;
      assert w != "" && ReparsedList(map["" := w], []) == [];
      assert Reparsed(map[], d) == InDefault(w);
      assert [d][1..] == [] && ReparsedList(map[], [d]) == [InDefault(w)];
    } else {
      assert AsRead(c) == None && AsReadList([c]) == None;
    }
  }

  ghost predicate SameAgain(m: Mode, doc: seq<Node>)
  {
    var again := ParsedAgain(m, doc);
    again.Some? && ProcessableList(again.value) && Canonicalised(m, again.value) == Canonicalised(m, doc)
  }

  /** Such a document gives the same bytes again exactly if some clean URI that is accepted is written like
      its own. */
  lemma AgainExactly(m: Mode, u: string)
    requires u != ""
    ensures SameAgain(m, [InDefault(u)]) <==> exists w :: Clean(w) && U.Accepted(w) && Quoted(w) == Quoted(u)
  {
    InDefaultAgain(m, u);
    if SameAgain(m, [InDefault(u)]) {
      var w := ReadUri(u).value;
      assert ParsedAgain(m, [InDefault(u)]).value == [InDefault(w)];
      AcceptedProcessable(w);
      if w == "" { ReadNotEmpty(u); }
      SameInDefault(m, u, w);
      SameWritten(u, w);
      ReadsBackExactly(w);
      assert Clean(w) && U.Accepted(w) && Quoted(w) == Quoted(u);
    }
    if w :| Clean(w) && U.Accepted(w) && Quoted(w) == Quoted(u) {
      SameWritten(u, w);
      ReadsBackExactly(w);
      if w == "" { ReadNotEmpty(u); }
      InDefaultWritten(m, u);
      InDefaultWritten(m, w);
      AcceptedProcessable(w);
      assert ParsedAgain(m, [InDefault(u)]) == Some([InDefault(w)]);
    }
  }

  lemma AcceptedProcessable(w: string)
    ensures ProcessableList([InDefault(w)]) <==> U.Accepted(w)
  {
    var node := InDefault(w);
    var d := Ns(0, "", w);
    assert node.elem.nsDef == [d] && d in node.elem.nsDef;
    assert AbsoluteUris(node.elem) <==> U.Accepted(d.href);
    assert Processable(node) <==> AbsoluteUris(node.elem);
    assert [node][1..] == [] && [node][0] == node;
  }

  lemma ReadNotEmpty(u: string)
    requires u != ""
    ensures ReadUri(u) != Some("")
  {
    if ReadUri(u).Some? {
      if '\"' in u && '\'' in u { ReadEscapedShrinks(u); } else { ReadShrinks(u); }
    }
  }

  /** What goes wrong: a URI that is accepted, and is written so that a parser reads another one, which is
      accepted as well but written so that no parser reads it. */
  lemma AmpersandLost(m: Mode)
    ensures var u, v := "urn:x&amp;y", "urn:x&y";
            && Document([InDefault(u)]) && Document([InDefault(v)])
            && ParsedAgain(m, [InDefault(u)]) == Some([InDefault(v)])
            && Canonicalised(m, [InDefault(v)]) != Canonicalised(m, [InDefault(u)])
            && ParsedAgain(m, [InDefault(v)]) == None
  {
    var u, v := "urn:x&amp;y", "urn:x&y";
    assert u == "urn:" + "x&amp;y" && v == "urn:" + "x&y";
    U.UrnAccepted("x&amp;y");
    U.UrnAccepted("x&y");
    InDefaultDocument(u);
    InDefaultDocument(v);
    AmpersandRead();
    InDefaultAgain(m, u);
    InDefaultAgain(m, v);
    if Canonicalised(m, [InDefault(v)]) == Canonicalised(m, [InDefault(u)]) {
      SameInDefault(m, u, v);
      SameWritten(u, v);
    }
  }

  lemma AmpersandRead()
    ensures ReadUri("urn:x&amp;y") == Some("urn:x&y") && ReadUri("urn:x&y") == None
  {
    assert '\"' !in "urn:x&amp;y" && '\"' !in "urn:x&y";
    assert "urn:x&amp;y" == "urn:x" + "&amp;y" && "urn:x&y" == "urn:x" + "&y";
    ReadFront("urn:x", "&amp;y");
    ReadFront("urn:x", "&y");
    assert "&amp;y" == "&amp;" + "y";
    AmpersandExpanded("y");
    ReadClean("y", true);
    assert "&y"[0] == '&' && "&y"[1] == 'y' && |"&y"| == 2;
    assert Expanded("&y") == None;
    assert "urn:x" + ("&" + "y") == "urn:x&y";
  }
}
