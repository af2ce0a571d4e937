/** The parsed document the canonicaliser walks, and the namespace bindings in force in it. */
module XmlTree {
  import opened Strings

  const XML_XML_NAMESPACE := "http://www.w3.org/XML/1998/namespace"

  /** A namespace declaration; `addr` stands for its address, so `==` is the C pointer test.
      The empty prefix stands for the null prefix of the default namespace. */
  datatype Ns = Ns(addr: nat, prefix: string, href: string)

  /** The declaration the document itself holds for the reserved prefix. */
  const XML_NS := Ns(0, "xml", XML_XML_NAMESPACE)

  datatype Attr = Attr(ns: Option<Ns>, name: string, value: string)

  datatype Elem = Elem(name: string, ns: Option<Ns>, nsDef: seq<Ns>, attrs: seq<Attr>)

  datatype Node =
    | Element(elem: Elem, children: seq<Node>)
    | Text(content: string)
    | CData(content: string)
    | PI(target: string, content: string)
    | Comment(content: string)
    | Declaration
    | EntityRef

  /** The elements from the document element down to the current one. */
  type Path = seq<Elem>

  function Current(path: Path): Elem
    requires path != []
  {
    path[|path| - 1]
  }

  function Parent(path: Path): Path
    requires path != []
  {
    path[..|path| - 1]
  }

  // ----- xmlSearchNs

  function FindDef(defs: seq<Ns>, prefix: string): Option<Ns>
  {
    if defs == [] then None
    else if defs[0].prefix == prefix then Some(defs[0])
    else FindDef(defs[1..], prefix)
  }

  function SearchNs(path: Path, prefix: string): Option<Ns>
  {
    if prefix == "xml" then Some(XML_NS) else SearchUp(path, prefix, true)
  }

  /** The walk towards the root; above the starting element it also trusts an element's own `ns`. */
  function SearchUp(path: Path, prefix: string, orig: bool): Option<Ns>
  {
    if path == [] then None
    else
      var node := Current(path);
      var def := FindDef(node.nsDef, prefix);
      if def.Some? then def
      else if !orig && node.ns.Some? && node.ns.value.prefix == prefix then node.ns
      else SearchUp(Parent(path), prefix, false)
  }

  /** The declaration of `prefix` on the nearest ancestor-or-self. */
  function Nearest(path: Path, prefix: string): Option<Ns>
  {
    if path == [] then None
    else
      var def := FindDef(Current(path).nsDef, prefix);
      if def.Some? then def else Nearest(Parent(path), prefix)
  }

  // ----- bindings in force

  datatype Decl = Decl(prefix: string, href: string)

  /** Prefix-to-URI bindings; an absent default means no default namespace. */
  type Env = map<string, string>

  function Uri(env: Env, prefix: string): string
  {
    if prefix == "xml" then XML_XML_NAMESPACE
    else if prefix in env then env[prefix] else ""
  }

  /** The bindings in force after reading one declaration (section 5 of Namespaces in XML). */
  function Bind(env: Env, d: Decl): Env
  {
    if d.prefix == "xml" then env
    else if d.href == "" then env - {d.prefix}
    else env[d.prefix := d.href]
  }

  function BindAll(env: Env, ds: seq<Decl>): Env
    decreases |ds|
  {
    if ds == [] then env else BindAll(Bind(env, ds[0]), ds[1..])
  }

  function ToDecl(ns: Ns): Decl { Decl(ns.prefix, ns.href) }

  function ToDecls(defs: seq<Ns>): (r: seq<Decl>)
    ensures |r| == |defs| && forall i :: 0 <= i < |defs| ==> r[i] == ToDecl(defs[i])
  {
    if defs == [] then [] else [ToDecl(defs[0])] + ToDecls(defs[1..])
  }

  /** The bindings in force at the last element of `path` in the source document. */
  function InScope(path: Path): Env
  {
    if path == [] then map[]
    else BindAll(InScope(Parent(path)), ToDecls(Current(path).nsDef))
  }

  function NsUri(ns: Option<Ns>): string { if ns.Some? then ns.value.href else "" }
  function NsPrefix(ns: Option<Ns>): string { if ns.Some? then ns.value.prefix else "" }

  // ----- namespace well-formedness

  ghost predicate UniquePrefixes(ds: seq<Decl>)
  {
    forall i, j :: 0 <= i < j < |ds| ==> ds[i].prefix != ds[j].prefix
  }

  ghost predicate LegalDef(d: Ns)
  {
    && (d.prefix == "xml" ==> d.href == XML_XML_NAMESPACE)
    && (d.prefix != "" ==> d.href != "")
  }

  /** What `ns` must be for a name with that prefix: the declaration in scope. */
  ghost predicate Resolves(path: Path, ns: Ns)
  {
    && ns.href != ""
    && (if ns.prefix == "xml" then ns == XML_NS else Nearest(path, ns.prefix) == Some(ns))
  }

  /** Namespaces in XML, as the parser leaves it behind: each name points at the declaration its
      prefix has in scope, each prefix and each attribute name occurs once per element. */
  ghost predicate WellFormedElem(path: Path)
    requires path != []
  {
    var e := Current(path);
    && UniquePrefixes(ToDecls(e.nsDef))
    && (forall d :: d in e.nsDef ==> LegalDef(d))
    && (if e.ns.Some? then Resolves(path, e.ns.value) else Uri(InScope(path), "") == "")
    && (forall a :: a in e.attrs && a.ns.Some? ==> a.ns.value.prefix != "" && Resolves(path, a.ns.value))
    && (forall i, j :: 0 <= i < j < |e.attrs| ==>
          (NsUri(e.attrs[i].ns), e.attrs[i].name) != (NsUri(e.attrs[j].ns), e.attrs[j].name))
  }

  ghost predicate WellFormedPath(path: Path)
  {
    path != [] ==> WellFormedElem(path) && WellFormedPath(Parent(path))
  }

  ghost predicate WellFormed(path: Path, node: Node)
    decreases node
  {
    node.Element? ==>
      && WellFormedElem(path + [node.elem])
      && WellFormedList(path + [node.elem], node.children)
  }

  ghost predicate WellFormedList(path: Path, nodes: seq<Node>)
    decreases nodes
  {
    nodes != [] ==> WellFormed(path, nodes[0]) && WellFormedList(path, nodes[1..])
  }

  // ----- lemmas about the search and the bindings

  lemma {:induction false} FindDefFound(defs: seq<Ns>, prefix: string)
    ensures FindDef(defs, prefix).Some? ==>
              FindDef(defs, prefix).value in defs && FindDef(defs, prefix).value.prefix == prefix
    ensures FindDef(defs, prefix).None? ==> forall d :: d in defs ==> d.prefix != prefix
  {
    if defs != [] {
      FindDefFound(defs[1..], prefix);
      assert defs == [defs[0]] + defs[1..];
    }
  }

  lemma {:induction false} NearestPrefix(path: Path, prefix: string)
    ensures Nearest(path, prefix).Some? ==> Nearest(path, prefix).value.prefix == prefix
  {
    if path != [] {
      FindDefFound(Current(path).nsDef, prefix);
      NearestPrefix(Parent(path), prefix);
    }
  }

  /** On a well-formed path the shortcut through an ancestor's own namespace changes nothing. */
  lemma {:induction false} SearchIsNearest(path: Path, prefix: string, orig: bool)
    requires WellFormedPath(path) && prefix != "xml"
    ensures SearchUp(path, prefix, orig) == Nearest(path, prefix)
  {
    if path != [] {
      SearchIsNearest(Parent(path), prefix, false);
    }
  }

  lemma {:induction false} UriBindAll(env: Env, ds: seq<Decl>, prefix: string)
    requires UniquePrefixes(ds) && prefix != "xml"
    ensures forall d :: d in ds && d.prefix == prefix ==> Uri(BindAll(env, ds), prefix) == d.href
    ensures (forall d :: d in ds ==> d.prefix != prefix) ==> Uri(BindAll(env, ds), prefix) == Uri(env, prefix)
    decreases |ds|
  {
    if ds != [] {
      assert ds == [ds[0]] + ds[1..];
      assert forall d :: d in ds[1..] ==> d.prefix != ds[0].prefix;
      UriBindAll(Bind(env, ds[0]), ds[1..], prefix);
    }
  }

  /** The URI in force for a prefix is the one its nearest declaration gives. */
  lemma {:induction false} UriIsNearest(path: Path, prefix: string)
    requires WellFormedPath(path) && prefix != "xml"
    ensures Uri(InScope(path), prefix) == NsUri(Nearest(path, prefix))
  {
    if path != [] {
      UriIsNearest(Parent(path), prefix);
      UriIsNearestBelow(path, prefix);
    }
  }

  lemma UriIsNearestBelow(path: Path, prefix: string)
    requires path != [] && prefix != "xml" && UniquePrefixes(ToDecls(Current(path).nsDef))
    requires Uri(InScope(Parent(path)), prefix) == NsUri(Nearest(Parent(path), prefix))
    ensures Uri(InScope(path), prefix) == NsUri(Nearest(path, prefix))
  {
    var defs := Current(path).nsDef;
    UriBindAll(InScope(Parent(path)), ToDecls(defs), prefix);
    FindDefFound(defs, prefix);
    var def := FindDef(defs, prefix);
    if def.Some? {
      var i :| 0 <= i < |defs| && defs[i] == def.value;
      assert ToDecls(defs)[i] == ToDecl(def.value);
    } else {
      forall d | d in ToDecls(defs) ensures d.prefix != prefix {
        var i :| 0 <= i < |defs| && ToDecls(defs)[i] == d;
        assert defs[i] in defs;
      }
    }
  }

  /** No stored binding is empty and the reserved prefix is never stored. */
  ghost predicate Normal(env: Env)
  {
    "xml" !in env && forall p :: p in env ==> env[p] != ""
  }

  lemma {:induction false} BindAllNormal(env: Env, ds: seq<Decl>)
    requires Normal(env)
    ensures Normal(BindAll(env, ds))
    decreases |ds|
  {
    if ds != [] { BindAllNormal(Bind(env, ds[0]), ds[1..]); }
  }

  lemma {:induction false} InScopeNormal(path: Path)
    ensures Normal(InScope(path))
  {
    if path != [] {
      InScopeNormal(Parent(path));
      BindAllNormal(InScope(Parent(path)), ToDecls(Current(path).nsDef));
    }
  }

  lemma EnvExtensional(e1: Env, e2: Env)
    requires Normal(e1) && Normal(e2)
    requires forall p :: Uri(e1, p) == Uri(e2, p)
    ensures e1 == e2
  {
    forall p ensures p in e1 <==> p in e2 {
      assert Uri(e1, p) == Uri(e2, p);
    }
    forall p | p in e1 ensures e1[p] == e2[p] {
      assert Uri(e1, p) == Uri(e2, p);
    }
  }
}
