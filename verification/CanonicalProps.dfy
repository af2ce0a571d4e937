/** Properties of canonical documents: meaning is preserved, declarations are minimal, and the order
    of attributes and declarations in the source does not matter. */
module CanonicalProps {
  import opened Strings
  import opened XmlTree
  import opened Canonical
  import U = UriSyntax
  import Norm = Normalize
  import L = SortedLists

  // ----- the two orders

  lemma DeclOrder()
    ensures L.Asymmetric(DeclCompare) && L.Transitive(DeclCompare)
  {
    forall a, b | DeclCompare(a, b) < 0 ensures DeclCompare(b, a) > 0 {
      CompareSound(a.prefix, b.prefix);
    }
    forall a, b, c | DeclCompare(a, b) < 0 && DeclCompare(b, c) < 0 ensures DeclCompare(a, c) < 0 {
      CompareTransitive(a.prefix, b.prefix, c.prefix);
    }
  }

  lemma CAttrOrder()
    ensures L.Asymmetric(CAttrCompare) && L.Transitive(CAttrCompare)
  {
    forall a, b | CAttrCompare(a, b) < 0 ensures CAttrCompare(b, a) > 0 {
      CompareSound(a.uri, b.uri);
      CompareSound(a.name, b.name);
    }
    forall a, b, c | CAttrCompare(a, b) < 0 && CAttrCompare(b, c) < 0 ensures CAttrCompare(a, c) < 0 {
      CompareSound(a.uri, b.uri);
      CompareSound(b.uri, c.uri);
      CompareSound(a.uri, c.uri);
      if a.uri != b.uri && b.uri != c.uri {
        CompareTransitive(a.uri, b.uri, c.uri);
      } else if a.uri == c.uri {
        CompareTransitive(a.name, b.name, c.name);
      }
    }
  }

  /** Declarations of distinct prefixes are strictly ordered. */
  lemma DeclsListed(S: set<Decl>)
    requires forall a, b :: a in S && b in S && a.prefix == b.prefix ==> a == b
    ensures L.Lists(L.Sorted(S, DeclCompare), S, DeclCompare)
  {
    DeclOrder();
    forall a, b | a in S && b in S && a != b
      ensures DeclCompare(a, b) < 0 || DeclCompare(b, a) < 0
    {
      CompareSound(a.prefix, b.prefix);
      CompareSound(b.prefix, a.prefix);
    }
    L.SortedExists(S, DeclCompare);
  }

  lemma {:induction false} AscendingUnique(ds: seq<Decl>)
    requires L.Ascending(ds, DeclCompare)
    ensures UniquePrefixes(ds)
  {
    if ds != [] {
      AscendingUnique(ds[1..]);
      forall i, j | 0 <= i < j < |ds| ensures ds[i].prefix != ds[j].prefix {
        if i == 0 {
          assert ds[j] in ds[1..];
          CompareSound(ds[0].prefix, ds[j].prefix);
        } else {
          assert ds[i] == ds[1..][i - 1] && ds[j] == ds[1..][j - 1];
        }
      }
    }
  }

  /** The written declarations are the emitted set, each prefix once, ascending by prefix. */
  lemma DeclsOfListed(exclusive: bool, path: Path)
    requires path != []
    ensures L.Lists(DeclsOf(exclusive, path), Emitted(exclusive, path, OutEnv(exclusive, Parent(path))), DeclCompare)
    ensures UniquePrefixes(DeclsOf(exclusive, path))
  {
    DeclsListed(Emitted(exclusive, path, OutEnv(exclusive, Parent(path))));
    AscendingUnique(DeclsOf(exclusive, path));
  }

  lemma AttrsOfListed(path: Path)
    requires path != [] && WellFormedElem(path)
    ensures L.Lists(AttrsOf(Current(path)), set a | a in Current(path).attrs :: ToCAttr(a), CAttrCompare)
  {
    var attrs := Current(path).attrs;
    var S := set a | a in attrs :: ToCAttr(a);
    CAttrOrder();
    forall a, b | a in S && b in S && a != b
      ensures CAttrCompare(a, b) < 0 || CAttrCompare(b, a) < 0
    {
      var i :| 0 <= i < |attrs| && ToCAttr(attrs[i]) == a;
      var j :| 0 <= j < |attrs| && ToCAttr(attrs[j]) == b;
      CompareSound(a.uri, b.uri);
      CompareSound(b.uri, a.uri);
      CompareSound(a.name, b.name);
      CompareSound(b.name, a.name);
    }
    L.SortedExists(S, CAttrCompare);
  }

  // ----- the order in which they are written

  ghost predicate AttrEarlier(a: CAttr, b: CAttr)
  {
    Earlier(a.uri, b.uri) || (a.uri == b.uri && Earlier(a.name, b.name))
  }

  ghost predicate DeclsAscend(ds: seq<Decl>)
  {
    forall i, j :: 0 <= i < j < |ds| ==> Earlier(ds[i].prefix, ds[j].prefix)
  }

  ghost predicate AttrsAscend(cs: seq<CAttr>)
  {
    forall i, j :: 0 <= i < j < |cs| ==> AttrEarlier(cs[i], cs[j])
  }

  /** Section 2.2 of Canonical XML 1.0: declarations come in the byte order of their prefixes, attributes in
      that of their namespace URIs and then of their local names, at every element. */
  ghost predicate InOrder(cs: seq<CNode>)
    decreases cs
  {
    cs != [] ==>
      && (cs[0].CElem? ==>
            DeclsAscend(cs[0].decls) && AttrsAscend(cs[0].attrs) && InOrder(cs[0].children))
      && InOrder(cs[1..])
  }

  lemma DeclsInOrder(exclusive: bool, path: Path)
    requires path != []
    ensures DeclsAscend(DeclsOf(exclusive, path))
  {
    DeclsOfListed(exclusive, path);
    var ds := DeclsOf(exclusive, path);
    forall i, j | 0 <= i < j < |ds| ensures Earlier(ds[i].prefix, ds[j].prefix) {
      L.AscendingAt(ds, DeclCompare, i, j);
      CompareIsByteOrder(ds[i].prefix, ds[j].prefix);
    }
  }

  lemma AttrsInOrder(path: Path)
    requires path != [] && WellFormedElem(path)
    ensures AttrsAscend(AttrsOf(Current(path)))
  {
    AttrsOfListed(path);
    var cs := AttrsOf(Current(path));
    forall i, j | 0 <= i < j < |cs| ensures AttrEarlier(cs[i], cs[j]) {
      L.AscendingAt(cs, CAttrCompare, i, j);
      CompareSound(cs[i].uri, cs[j].uri);
      CompareIsByteOrder(cs[i].uri, cs[j].uri);
      CompareIsByteOrder(cs[i].name, cs[j].name);
    }
  }

  lemma {:induction false} CanonInOrder(m: Mode, path: Path, nodes: seq<Node>)
    requires WellFormedList(path, nodes)
    ensures InOrder(CanonList(m, path, nodes))
    decreases nodes
  {
    if nodes != [] {
      var head, tail := CanonNode(m, path, nodes[0]), CanonList(m, path, nodes[1..]);
      CanonInOrder(m, path, nodes[1..]);
      if head == [] {
        assert head + tail == tail;
      } else {
        assert head == [head[0]] && (head + tail)[1..] == tail;
        if nodes[0].Element? {
          var p := path + [nodes[0].elem];
          DeclsInOrder(m.exclusive, p);
          AttrsInOrder(p);
          CanonInOrder(m, p, nodes[0].children);
        }
      }
    }
  }

  // ----- reading the declarations back

  /** Reading back an element's declarations gives every candidate prefix its source URI and leaves
      the rest as the output parent had it. */
  lemma ReadBack(exclusive: bool, path: Path, p: string)
    requires path != []
    ensures var outer := OutEnv(exclusive, Parent(path));
            Uri(OutEnv(exclusive, path), p) ==
            if (if exclusive then p in Utilized(Current(path)) else p in InScope(path) || p in outer)
            then Uri(InScope(path), p) else Uri(outer, p)
  {
    if p != "xml" {
      var outer := OutEnv(exclusive, Parent(path));
      var ds := DeclsOf(exclusive, path);
      DeclsOfListed(exclusive, path);
      UriBindAll(outer, ds, p);
      var d := Decl(p, Uri(InScope(path), p));
      if d in Emitted(exclusive, path, outer) {
        assert d in ds;
      } else {
        assert forall x :: x in ds ==> x.prefix != p;
      }
    }
  }

  lemma OutEnvNormal(exclusive: bool, path: Path)
    ensures Normal(OutEnv(exclusive, path))
  {
    if path != [] {
      OutEnvNormal(exclusive, Parent(path));
      BindAllNormal(OutEnv(exclusive, Parent(path)), DeclsOf(exclusive, path));
    }
  }

  /** Inclusive mode: the bindings read back from the output are those of the source, everywhere. */
  lemma InclusiveReadBack(path: Path)
    ensures OutEnv(false, path) == InScope(path)
  {
    OutEnvNormal(false, path);
    InScopeNormal(path);
    if path != [] {
      forall p ensures Uri(OutEnv(false, path), p) == Uri(InScope(path), p) {
        ReadBack(false, path, p);
      }
      EnvExtensional(OutEnv(false, path), InScope(path));
    }
  }

  /** Exclusive mode: at each element the prefixes it uses are bound as in the source. */
  lemma ExclusiveReadBack(path: Path, p: string)
    requires path != [] && p in Utilized(Current(path))
    ensures Uri(OutEnv(true, path), p) == Uri(InScope(path), p)
  {
    ReadBack(true, path, p);
  }

  // ----- meaning is preserved

  /** The prefix of a resolved name is bound to that name's URI. */
  lemma ResolvedUri(path: Path, ns: Ns)
    requires WellFormedPath(path) && Resolves(path, ns)
    ensures Uri(InScope(path), ns.prefix) == ns.href
  {
    if ns.prefix != "xml" { UriIsNearest(path, ns.prefix); }
  }

  lemma NamesPreserved(m: Mode, path: Path)
    requires path != [] && WellFormedPath(path)
    ensures var e := Current(path);
            var env := OutEnv(m.exclusive, path);
            && Uri(env, NsPrefix(e.ns)) == NsUri(e.ns)
            && ReadAttrs(AttrsOf(e), env) == SourceAttrs(e)
  {
    var e := Current(path);
    var env := OutEnv(m.exclusive, path);
    forall p | p in Utilized(e) ensures Uri(env, p) == Uri(InScope(path), p) {
      if m.exclusive { ExclusiveReadBack(path, p); } else { InclusiveReadBack(path); }
    }
    if e.ns.Some? { ResolvedUri(path, e.ns.value); }
    AttrsOfListed(path);
    forall a | a in e.attrs
      ensures NsUri(a.ns) == if NsPrefix(a.ns) == "" then "" else Uri(env, NsPrefix(a.ns))
    {
      if a.ns.Some? { ResolvedUri(path, a.ns.value); }
    }
    SameAttrs(e, env);
  }

  lemma SameAttrs(e: Elem, env: Env)
    requires forall a :: a in e.attrs ==>
               NsUri(a.ns) == if NsPrefix(a.ns) == "" then "" else Uri(env, NsPrefix(a.ns))
    requires L.Lists(AttrsOf(e), set a | a in e.attrs :: ToCAttr(a), CAttrCompare)
    ensures ReadAttrs(AttrsOf(e), env) == SourceAttrs(e)
  {
    forall x | x in SourceAttrs(e) ensures x in ReadAttrs(AttrsOf(e), env) {
      var a :| a in e.attrs && x == (NsUri(a.ns), a.name, a.value);
      assert ToCAttr(a) in AttrsOf(e);
    }
    forall x | x in ReadAttrs(AttrsOf(e), env) ensures x in SourceAttrs(e) {
      var c :| c in AttrsOf(e) && x == (if c.prefix == "" then "" else Uri(env, c.prefix), c.name, c.value);
      var a :| a in e.attrs && ToCAttr(a) == c;
    }
  }

  lemma {:induction false} ReadAppend(m: Mode, env: Env, a: seq<CNode>, b: seq<CNode>)
    ensures Read(m, env, a + b) == Read(m, env, a) + Read(m, env, b)
    decreases |a|
  {
    if a == [] {
      assert a + b == b;
    } else {
      assert (a + b)[1..] == a[1..] + b;
      ReadAppend(m, env, a[1..], b);
    }
  }

  /** A reader of the canonical document resolves every name as the source does; in inclusive mode
      it also has the same bindings in force at every element. */
  lemma {:induction false} MeaningPreserved(m: Mode, path: Path, node: Node)
    requires WellFormedPath(path) && WellFormed(path, node)
    ensures Read(m, OutEnv(m.exclusive, path), CanonNode(m, path, node)) == SourceMeaning(m, path, node)
    decreases node
  {
    match node {
      case Element(e, children) =>
        var p := path + [e];
        assert Parent(p) == path;
        NamesPreserved(m, p);
        InclusiveReadBack(p);
        MeaningPreservedList(m, p, children);
      case _ =>
    }
  }

  lemma {:induction false} MeaningPreservedList(m: Mode, path: Path, nodes: seq<Node>)
    requires WellFormedPath(path) && WellFormedList(path, nodes)
    ensures Read(m, OutEnv(m.exclusive, path), CanonList(m, path, nodes)) == SourceMeaningList(m, path, nodes)
    decreases nodes
  {
    if nodes != [] {
      MeaningPreserved(m, path, nodes[0]);
      MeaningPreservedList(m, path, nodes[1..]);
      ReadAppend(m, OutEnv(m.exclusive, path), CanonNode(m, path, nodes[0]), CanonList(m, path, nodes[1..]));
    }
  }

  // ----- nothing superfluous

  /** No declaration repeats the binding already in force from the output parent; prefixes ascend
      strictly, so each occurs at most once. */
  lemma DeclsMinimal(exclusive: bool, path: Path)
    requires path != []
    ensures forall d :: d in DeclsOf(exclusive, path) ==>
              d.href != Uri(OutEnv(exclusive, Parent(path)), d.prefix)
    ensures L.Ascending(DeclsOf(exclusive, path), DeclCompare)
    ensures forall i, j :: 0 <= i < j < |DeclsOf(exclusive, path)| ==>
              DeclsOf(exclusive, path)[i].prefix != DeclsOf(exclusive, path)[j].prefix
  {
    DeclsOfListed(exclusive, path);
  }

  /** Dropping any written declaration would change a binding the element needs. */
  lemma DeclsNecessary(exclusive: bool, path: Path, ds: seq<Decl>, missing: Decl)
    requires path != [] && missing in DeclsOf(exclusive, path)
    requires UniquePrefixes(ds) && forall d :: d in ds ==> d in DeclsOf(exclusive, path) && d != missing
    ensures var env := BindAll(OutEnv(exclusive, Parent(path)), ds);
            Uri(env, missing.prefix) != Uri(InScope(path), missing.prefix)
  {
    DeclsOfListed(exclusive, path);
    var all := DeclsOf(exclusive, path);
    assert missing.prefix != "xml";
    forall d | d in ds ensures d.prefix != missing.prefix {
      var i :| 0 <= i < |all| && all[i] == d;
      var j :| 0 <= j < |all| && all[j] == missing;
    }
    UriBindAll(OutEnv(exclusive, Parent(path)), ds, missing.prefix);
  }

  // ----- comments

  function WithoutComments(nodes: seq<Node>): seq<Node>
    decreases nodes
  {
    if nodes == [] then []
    else
      var rest := WithoutComments(nodes[1..]);
      match nodes[0]
      case Comment(_) => rest
      case Element(e, children) => [Element(e, WithoutComments(children))] + rest
      case _ => [nodes[0]] + rest
  }

  /** The mode without comments is that with comments, on the document without its comments. */
  lemma {:induction false} CommentsDropped(exclusive: bool, path: Path, nodes: seq<Node>)
    ensures CanonList(Mode(exclusive, false), path, nodes)
         == CanonList(Mode(exclusive, true), path, WithoutComments(nodes))
    decreases nodes
  {
    if nodes != [] {
      CommentsDropped(exclusive, path, nodes[1..]);
      var rest := WithoutComments(nodes[1..]);
      match nodes[0] {
        case Comment(_) =>
        case Element(e, children) =>
          CommentsDropped(exclusive, path + [e], children);
          assert ([Element(e, WithoutComments(children))] + rest)[1..] == rest;
        case _ =>
          assert ([nodes[0]] + rest)[1..] == rest;
      }
    }
  }

  // ----- line breaks outside the document element

  /** The nodes of a document, one a line. */
  function Lines(cs: seq<CNode>): string
  {
    if cs == [] then ""
    else Print([cs[0]], Inside, false) + if |cs| == 1 then "" else "\n" + Lines(cs[1..])
  }

  predicate Misc(cs: seq<CNode>) { forall c :: c in cs ==> c.CPI? || c.CComment? }

  lemma OnePrinted(c: CNode, pos: Position, top: bool)
    ensures Print([c], pos, top) == PrintNode(c, pos, top)
  {
    assert [c][1..] == [];
  }

  lemma InstructionLines(target: string, content: string)
    ensures PrintPI(target, content, Before) == PrintPI(target, content, Inside) + "\n"
    ensures PrintPI(target, content, After) == "\n" + PrintPI(target, content, Inside)
  {
    var gap := if content != "" then " " + Norm.Normalized(content, Norm.NormPI) else "";
    Assoc("\n", "<?", target);
    Assoc("\n", "<?" + target, gap);
    Assoc("\n", "<?" + target + gap, "?>");
    Assoc("<?" + target + gap, "?>", "\n");
  }

  lemma CommentLines(content: string)
    ensures PrintComment(content, Before) == PrintComment(content, Inside) + "\n"
    ensures PrintComment(content, After) == "\n" + PrintComment(content, Inside)
  {
    var x := Norm.Normalized(content, Norm.NormComment);
    Assoc("\n", "<!--", x);
    Assoc("\n", "<!--" + x, "-->");
    Assoc("<!--" + x, "-->", "\n");
  }

  lemma MiscLines(c: CNode, top: bool)
    requires c.CPI? || c.CComment?
    ensures PrintNode(c, Before, top) == Print([c], Inside, false) + "\n"
    ensures PrintNode(c, After, top) == "\n" + Print([c], Inside, false)
  {
    OnePrinted(c, Inside, false);
    match c
    case CPI(t, s) => InstructionLines(t, s);
    case CComment(s) => CommentLines(s);
  }

  lemma {:induction false} LinesAfter(b: seq<CNode>)
    requires Misc(b)
    ensures Print(b, After, true) == if b == [] then "" else "\n" + Lines(b)
  {
    if b != [] {
      var rest := b[1..];
      assert b[0] in b && forall c :: c in rest ==> c in b;
      LinesAfter(rest);
      MiscLines(b[0], true);
      Assoc("\n", Print([b[0]], Inside, false), Print(rest, After, true));
    }
  }

  /** Each node beside the document element is on a line of its own, before it and after it. */
  lemma {:induction false} LinesBetween(a: seq<CNode>, e: CNode, b: seq<CNode>)
    requires Misc(a) && e.CElem? && Misc(b)
    ensures Print(a + [e] + b, Before, true) == Lines(a + [e] + b)
    decreases |a|
  {
    var all := a + [e] + b;
    if a == [] {
      assert all[0] == e && all[1..] == b;
      OnePrinted(e, Inside, false);
      LinesAfter(b);
    } else {
      assert a[0] in a && forall c :: c in a[1..] ==> c in a;
      assert all[0] == a[0] && all[1..] == a[1..] + [e] + b;
      LinesBetween(a[1..], e, b);
      MiscLines(a[0], true);
      Assoc(Print([a[0]], Inside, false), "\n", Lines(all[1..]));
    }
  }

  // ----- source order does not matter

  /** The same element but for the order (and the addresses) of its declarations and attributes. */
  ghost predicate SameElem(e: Elem, f: Elem)
  {
    && e.name == f.name && NsPrefix(e.ns) == NsPrefix(f.ns) && NsUri(e.ns) == NsUri(f.ns)
    && (forall d :: d in ToDecls(e.nsDef) <==> d in ToDecls(f.nsDef))
    && (set a | a in e.attrs :: ToCAttr(a)) == (set a | a in f.attrs :: ToCAttr(a))
  }

  ghost predicate SameNode(x: Node, y: Node)
    decreases x
  {
    if x.Element? then y.Element? && SameElem(x.elem, y.elem) && SameNodes(x.children, y.children) else x == y
  }

  ghost predicate SameNodes(xs: seq<Node>, ys: seq<Node>)
    decreases xs
  {
    if xs == [] then ys == [] else ys != [] && SameNode(xs[0], ys[0]) && SameNodes(xs[1..], ys[1..])
  }

  ghost predicate SamePath(p: Path, q: Path)
  {
    |p| == |q| && (p != [] ==> SameElem(Current(p), Current(q)) && SamePath(Parent(p), Parent(q)))
  }

  lemma {:induction false} SameInScope(p: Path, q: Path)
    requires SamePath(p, q) && WellFormedPath(p) && WellFormedPath(q)
    ensures InScope(p) == InScope(q)
  {
    InScopeNormal(p);
    InScopeNormal(q);
    if p != [] {
      SameInScope(Parent(p), Parent(q));
      var ds, es := ToDecls(Current(p).nsDef), ToDecls(Current(q).nsDef);
      forall x ensures Uri(InScope(p), x) == Uri(InScope(q), x) {
        if x != "xml" {
          UriBindAll(InScope(Parent(p)), ds, x);
          UriBindAll(InScope(Parent(q)), es, x);
          if exists d :: d in ds && d.prefix == x {
            var d :| d in ds && d.prefix == x;
            assert d in es;
          }
        }
      }
      EnvExtensional(InScope(p), InScope(q));
    }
  }

  lemma SameUtilized(p: Path, q: Path)
    requires p != [] && SamePath(p, q) && WellFormedElem(p) && WellFormedElem(q)
    ensures Utilized(Current(p)) == Utilized(Current(q))
  {
    UtilizedBySet(p);
    UtilizedBySet(q);
  }

  lemma UtilizedBySet(p: Path)
    requires p != [] && WellFormedElem(p)
    ensures var S := set a | a in Current(p).attrs :: ToCAttr(a);
            Utilized(Current(p)) == {NsPrefix(Current(p).ns)} + (set c | c in S && c.prefix != "" :: c.prefix)
  {
    var e := Current(p);
    var S := set a | a in e.attrs :: ToCAttr(a);
    forall x | x in Utilized(e)
      ensures x in {NsPrefix(e.ns)} + (set c | c in S && c.prefix != "" :: c.prefix)
    {
      if x != NsPrefix(e.ns) {
        var a :| a in e.attrs && a.ns.Some? && a.ns.value.prefix == x;
        assert ToCAttr(a) in S;
      }
    }
  }

  lemma {:induction false} SameOutEnv(exclusive: bool, p: Path, q: Path)
    requires SamePath(p, q) && WellFormedPath(p) && WellFormedPath(q)
    ensures OutEnv(exclusive, p) == OutEnv(exclusive, q)
    ensures p != [] ==> DeclsOf(exclusive, p) == DeclsOf(exclusive, q)
  {
    if p != [] {
      SameOutEnv(exclusive, Parent(p), Parent(q));
      SameInScope(p, q);
      SameUtilized(p, q);
    }
  }

  /** Documents that differ only in the order of declarations and attributes have the same canonical
      form. */
  lemma {:induction false} OrderIndependent(m: Mode, p: Path, q: Path, x: Node, y: Node)
    requires SamePath(p, q) && WellFormedPath(p) && WellFormedPath(q)
    requires SameNode(x, y) && WellFormed(p, x) && WellFormed(q, y)
    ensures CanonNode(m, p, x) == CanonNode(m, q, y)
    decreases x
  {
    if x.Element? {
      var p', q' := p + [x.elem], q + [y.elem];
      assert Parent(p') == p && Parent(q') == q;
      SameOutEnv(m.exclusive, p', q');
      OrderIndependentList(m, p', q', x.children, y.children);
    }
  }

  lemma {:induction false} OrderIndependentList(m: Mode, p: Path, q: Path, xs: seq<Node>, ys: seq<Node>)
    requires SamePath(p, q) && WellFormedPath(p) && WellFormedPath(q)
    requires SameNodes(xs, ys) && WellFormedList(p, xs) && WellFormedList(q, ys)
    ensures CanonList(m, p, xs) == CanonList(m, q, ys)
    decreases xs
  {
    if xs != [] {
      OrderIndependent(m, p, q, xs[0], ys[0]);
      OrderIndependentList(m, p, q, xs[1..], ys[1..]);
    }
  }

  lemma SameDecl(e: Elem, f: Elem, d: Ns) returns (c: Ns)
    requires d in e.nsDef && forall x :: x in ToDecls(e.nsDef) ==> x in ToDecls(f.nsDef)
    ensures c in f.nsDef && c.href == d.href
  {
    var ds, es := ToDecls(e.nsDef), ToDecls(f.nsDef);
    var i :| 0 <= i < |e.nsDef| && e.nsDef[i] == d;
    assert ds[i] in ds && ds[i] == ToDecl(d);
    var j :| 0 <= j < |es| && es[j] == ds[i];
    c := f.nsDef[j];
  }

  lemma SameUris(e: Elem, f: Elem)
    requires forall d :: d in ToDecls(e.nsDef) ==> d in ToDecls(f.nsDef)
    ensures AbsoluteUris(f) ==> AbsoluteUris(e)
  {
    forall d | d in e.nsDef && AbsoluteUris(f) ensures U.Accepted(d.href) {
      var c := SameDecl(e, f, d);
    }
  }

  lemma {:induction false} SameProcessable(xs: seq<Node>, ys: seq<Node>)
    requires SameNodes(xs, ys)
    ensures ProcessableList(xs) <==> ProcessableList(ys)
    decreases xs
  {
    if xs != [] {
      if xs[0].Element? {
        SameUris(xs[0].elem, ys[0].elem);
        SameUris(ys[0].elem, xs[0].elem);
        SameProcessable(xs[0].children, ys[0].children);
      }
      SameProcessable(xs[1..], ys[1..]);
    }
  }

  /** Such documents are canonicalised alike: both fail, or both give the same bytes. */
  lemma SameText(m: Mode, doc: seq<Node>, other: seq<Node>)
    requires SameNodes(doc, other) && WellFormedList([], doc) && WellFormedList([], other)
    ensures ProcessableList(doc) <==> ProcessableList(other)
    ensures Print(CanonList(m, [], doc), Before, true) == Print(CanonList(m, [], other), Before, true)
  {
    SameProcessable(doc, other);
    OrderIndependentList(m, [], [], doc, other);
  }
}
