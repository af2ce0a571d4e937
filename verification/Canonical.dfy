/** What canonicalisation is for: section 2.3 of Canonical XML 1.0 and section 3 of Exclusive XML
    Canonicalization 1.0, for documents all of whose nodes are visible.  Nothing here mentions the
    stack the code keeps: the declarations of an element are a set of differences between bindings,
    and listings are the ascending order of a set. */
module Canonical {
  import opened Strings
  import opened XmlTree
  import U = UriSyntax
  import Norm = Normalize
  import L = SortedLists

  datatype Mode = Mode(exclusive: bool, withComments: bool)

  /** An attribute as it is printed, with the namespace URI it is ordered by. */
  datatype CAttr = CAttr(uri: string, prefix: string, name: string, value: string)

  /** A canonical document before it is spelt out. */
  datatype CNode =
    | CElem(prefix: string, name: string, decls: seq<Decl>, attrs: seq<CAttr>, children: seq<CNode>)
    | CText(content: string)
    | CPI(target: string, content: string)
    | CComment(content: string)

  function DeclCompare(a: Decl, b: Decl): int { Compare(a.prefix, b.prefix) }

  function CAttrCompare(a: CAttr, b: CAttr): int
  {
    var c := Compare(a.uri, b.uri);
    if c != 0 then c else Compare(a.name, b.name)
  }

  function ToCAttr(a: Attr): CAttr { CAttr(NsUri(a.ns), NsPrefix(a.ns), a.name, a.value) }

  // ----- which declarations are written

  /** The prefixes an element visibly utilizes. */
  function Utilized(e: Elem): set<string>
  {
    {NsPrefix(e.ns)} + (set a | a in e.attrs && a.ns.Some? :: a.ns.value.prefix)
  }

  /** The bindings the element needs and its output parent does not already provide: all those that
      changed in inclusive mode, those of visibly utilized prefixes in exclusive mode. */
  ghost function Emitted(exclusive: bool, path: Path, outer: Env): set<Decl>
    requires path != []
  {
    var env := InScope(path);
    var candidates := if exclusive then Utilized(Current(path)) else env.Keys + outer.Keys;
    set p | p in candidates && Uri(env, p) != Uri(outer, p) :: Decl(p, Uri(env, p))
  }

  /** The bindings a reader of the output has in force at the last element of `path`. */
  ghost function OutEnv(exclusive: bool, path: Path): Env
    decreases |path|, 1
  {
    if path == [] then map[]
    else BindAll(OutEnv(exclusive, Parent(path)), DeclsOf(exclusive, path))
  }

  /** The declarations written on the last element of `path`, in ascending order of prefix. */
  ghost function DeclsOf(exclusive: bool, path: Path): seq<Decl>
    requires path != []
    decreases |path|, 0
  {
    L.Sorted(Emitted(exclusive, path, OutEnv(exclusive, Parent(path))), DeclCompare)
  }

  ghost function AttrsOf(e: Elem): seq<CAttr>
  {
    L.Sorted(set a | a in e.attrs :: ToCAttr(a), CAttrCompare)
  }

  // ----- the canonical tree

  ghost function CanonNode(m: Mode, path: Path, node: Node): seq<CNode>
    decreases node
  {
    match node
    case Element(e, children) =>
      var p := path + [e];
      [CElem(NsPrefix(e.ns), e.name, DeclsOf(m.exclusive, p), AttrsOf(e), CanonList(m, p, children))]
    case Text(s) => [CText(s)]
    case CData(s) => [CText(s)]
    case PI(t, s) => [CPI(t, s)]
    case Comment(s) => if m.withComments then [CComment(s)] else []
    case Declaration => []
    case EntityRef => []
  }

  ghost function CanonList(m: Mode, path: Path, nodes: seq<Node>): seq<CNode>
    decreases nodes
  {
    if nodes == [] then [] else CanonNode(m, path, nodes[0]) + CanonList(m, path, nodes[1..])
  }

  /** Section 1.3 of Canonical XML 1.0: no namespace URI is relative. */
  predicate AbsoluteUris(e: Elem)
  {
    forall d :: d in e.nsDef ==> U.Accepted(d.href)
  }

  /** Entity references and elements with relative namespace URIs have no canonical form. */
  predicate Processable(node: Node)
    decreases node
  {
    !node.EntityRef? && (node.Element? ==> AbsoluteUris(node.elem) && ProcessableList(node.children))
  }

  predicate ProcessableList(nodes: seq<Node>)
    decreases nodes
  {
    nodes != [] ==> Processable(nodes[0]) && ProcessableList(nodes[1..])
  }

  // ----- spelling it out

  datatype Position = Before | Inside | After

  function QName(prefix: string, name: string): string
  {
    if |prefix| > 0 then prefix + ":" + name else name
  }

  function EscapeQuotes(s: string): string
  {
    if s == [] then [] else (if s[0] == '\"' then "&quot;" else [s[0]]) + EscapeQuotes(s[1..])
  }

  /** xmlBufWriteQuotedString: the URI goes out raw, in whichever quotes it does not contain. */
  function Quoted(s: string): string
  {
    if '\"' in s then
      if '\'' in s then "\"" + EscapeQuotes(s) + "\"" else "\'" + s + "\'"
    else "\"" + s + "\""
  }

  function PrintDecl(d: Decl): string
  {
    (if d.prefix != "" then " xmlns:" + d.prefix + "=" else " xmlns=") + Quoted(d.href)
  }

  function PrintDecls(ds: seq<Decl>): string
  {
    if ds == [] then "" else PrintDecl(ds[0]) + PrintDecls(ds[1..])
  }

  function PrintAttr(a: CAttr): string
  {
    " " + QName(a.prefix, a.name) + "=\"" + Norm.Normalized(a.value, Norm.NormAttr) + "\""
  }

  function PrintAttrs(s: seq<CAttr>): string
  {
    if s == [] then "" else PrintAttr(s[0]) + PrintAttrs(s[1..])
  }

  function PrintPI(target: string, content: string, pos: Position): string
  {
    (if pos.After? then "\n<?" else "<?") + target
    + (if content != "" then " " + Norm.Normalized(content, Norm.NormPI) else "")
    + (if pos.Before? then "?>\n" else "?>")
  }

  function PrintComment(content: string, pos: Position): string
  {
    (if pos.After? then "\n<!--" else "<!--")
    + Norm.Normalized(content, Norm.NormComment)
    + (if pos.Before? then "-->\n" else "-->")
  }

  /** `top` says that these are children of the document, where elements move the position on. */
  function Print(cs: seq<CNode>, pos: Position, top: bool): string
    decreases cs
  {
    if cs == [] then ""
    else
      PrintNode(cs[0], pos, top)
      + Print(cs[1..], if top && cs[0].CElem? then After else pos, top)
  }

  function PrintNode(c: CNode, pos: Position, top: bool): string
    decreases c
  {
    match c
    case CElem(prefix, name, decls, attrs, children) =>
      "<" + QName(prefix, name) + PrintDecls(decls) + PrintAttrs(attrs) + ">"
      + Print(children, if top then Inside else pos, false)
      + "</" + QName(prefix, name) + ">"
    case CText(s) => Norm.Normalized(s, Norm.NormText)
    case CPI(t, s) => PrintPI(t, s, pos)
    case CComment(s) => PrintComment(s, pos)
  }

  // ----- what documents mean

  /** A document with every name resolved; `bindings` are those in force, where they are kept. */
  datatype Meaning =
    | MElem(uri: string, name: string, bindings: Env, attrs: set<(string, string, string)>, children: seq<Meaning>)
    | MText(content: string)
    | MPI(target: string, content: string)
    | MComment(content: string)

  ghost function SourceAttrs(e: Elem): set<(string, string, string)>
  {
    set a | a in e.attrs :: (NsUri(a.ns), a.name, a.value)
  }

  ghost function SourceMeaning(m: Mode, path: Path, node: Node): seq<Meaning>
    decreases node
  {
    match node
    case Element(e, children) =>
      var p := path + [e];
      [MElem(NsUri(e.ns), e.name, if m.exclusive then map[] else InScope(p), SourceAttrs(e),
             SourceMeaningList(m, p, children))]
    case Text(s) => [MText(s)]
    case CData(s) => [MText(s)]
    case PI(t, s) => [MPI(t, s)]
    case Comment(s) => if m.withComments then [MComment(s)] else []
    case Declaration => []
    case EntityRef => []
  }

  ghost function SourceMeaningList(m: Mode, path: Path, nodes: seq<Node>): seq<Meaning>
    decreases nodes
  {
    if nodes == [] then [] else SourceMeaning(m, path, nodes[0]) + SourceMeaningList(m, path, nodes[1..])
  }

  /** Attributes without a prefix are in no namespace, whatever the default is. */
  ghost function ReadAttrs(attrs: seq<CAttr>, env: Env): set<(string, string, string)>
  {
    set a | a in attrs :: (if a.prefix == "" then "" else Uri(env, a.prefix), a.name, a.value)
  }

  /** A namespace-aware reader of the canonical document: prefixes mean what the declarations read
      so far say, and nothing else of the source is consulted. */
  ghost function Read(m: Mode, env: Env, cs: seq<CNode>): seq<Meaning>
    decreases cs
  {
    if cs == [] then [] else [ReadNode(m, env, cs[0])] + Read(m, env, cs[1..])
  }

  ghost function ReadNode(m: Mode, env: Env, c: CNode): Meaning
    decreases c
  {
    match c
    case CElem(prefix, name, decls, attrs, children) =>
      var inner := BindAll(env, decls);
      MElem(Uri(inner, prefix), name, if m.exclusive then map[] else inner, ReadAttrs(attrs, inner),
            Read(m, inner, children))
    case CText(s) => MText(s)
    case CPI(t, s) => MPI(t, s)
    case CComment(s) => MComment(s)
  }
}
