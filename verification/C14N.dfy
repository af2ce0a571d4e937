/** c14n.c: the walk that writes the canonical form, with its stack of rendered namespaces.
    Each step is proved to write exactly what the specification in `Canonical` prescribes. */
module C14N {
  import opened Strings
  import opened XmlTree
  import opened NsStack
  import opened Canonical
  import U = UriSyntax
  import P = CanonicalProps
  import L = SortedLists
  import Norm = Normalize

  // ----- comparators

  /** xmlC14NIsXmlNs */
  predicate IsXmlNs(ns: Ns)
  {
    ns.prefix == "xml" && ns.href == XML_XML_NAMESPACE
  }

  predicate IsEmptyNs(ns: Ns)
  {
    |ns.prefix| == 0 && |ns.href| == 0
  }

  /** xmlC14NNsCompare */
  function NsCompare(ns1: Ns, ns2: Ns): int
  {
    if ns1 == ns2 then 0 else Compare(ns1.prefix, ns2.prefix)
  }

  /** xmlC14NAttrsCompare */
  function AttrsCompare(attr1: Attr, attr2: Attr): int
  {
    if attr1 == attr2 then 0
    else if attr1.ns == attr2.ns then Compare(attr1.name, attr2.name)
    else if attr1.ns.None? then -1
    else if attr2.ns.None? then 1
    else if attr1.ns.value.prefix == "" then -1
    else if attr2.ns.value.prefix == "" then 1
    else
      var ret := Compare(attr1.ns.value.href, attr2.ns.value.href);
      if ret == 0 then Compare(attr1.name, attr2.name) else ret
  }

  predicate BoundAttr(a: Attr)
  {
    a.ns.Some? ==> a.ns.value.prefix != "" && a.ns.value.href != ""
  }

  /** On attributes the parser accepts, the comparator orders by URI, then by name. */
  lemma AttrsCompareOrder(a: Attr, b: Attr)
    requires BoundAttr(a) && BoundAttr(b)
    ensures AttrsCompare(a, b) < 0 <==> CAttrCompare(ToCAttr(a), ToCAttr(b)) < 0
    ensures AttrsCompare(a, b) > 0 <==> CAttrCompare(ToCAttr(a), ToCAttr(b)) > 0
  {
    CompareSound(NsUri(a.ns), NsUri(b.ns));
    CompareSound(a.name, b.name);
    if a == b || a.ns == b.ns {
      CompareSound(NsUri(a.ns), NsUri(a.ns));
    }
  }

  function ToCAttrs(l: seq<Attr>): (r: seq<CAttr>)
    ensures |r| == |l| && forall i :: 0 <= i < |l| ==> r[i] == ToCAttr(l[i])
  {
    if l == [] then [] else [ToCAttr(l[0])] + ToCAttrs(l[1..])
  }

  lemma {:induction false} InsertDecl(l: seq<Ns>, ns: Ns)
    ensures ToDecls(L.Insert(l, ns, NsCompare)) == L.Insert(ToDecls(l), ToDecl(ns), DeclCompare)
  {
    if l != [] {
      CompareSound(l[0].prefix, ns.prefix);
      assert ToDecls(l)[1..] == ToDecls(l[1..]);
      if NsCompare(l[0], ns) < 0 {
        InsertDecl(l[1..], ns);
      } else {
        assert ToDecls([ns] + l) == [ToDecl(ns)] + ToDecls(l);
      }
    }
  }

  lemma {:induction false} InsertAttr(l: seq<Attr>, a: Attr)
    requires BoundAttr(a) && forall x :: x in l ==> BoundAttr(x)
    ensures ToCAttrs(L.Insert(l, a, AttrsCompare)) == L.Insert(ToCAttrs(l), ToCAttr(a), CAttrCompare)
  {
    if l != [] {
      AttrsCompareOrder(l[0], a);
      assert ToCAttrs(l)[1..] == ToCAttrs(l[1..]);
      if AttrsCompare(l[0], a) < 0 {
        InsertAttr(l[1..], a);
      } else {
        assert ToCAttrs([a] + l) == [ToCAttr(a)] + ToCAttrs(l);
      }
    }
  }

  // ----- the declarations on the namespace axis, in the order the walk meets them

  ghost predicate OnAxis(path: Path, ns: Ns)
  {
    ns.prefix != "xml" && Nearest(path, ns.prefix) == Some(ns)
  }

  /** Some element of `path` from index `n` on declares `ns`, or the one before it does among the
      first `i` declarations. */
  ghost predicate Visited(path: Path, n: nat, i: nat, ns: Ns)
    requires n <= |path| && (n == 0 ==> i == 0) && (n > 0 ==> i <= |path[n - 1].nsDef|)
  {
    || (exists k :: n <= k < |path| && ns in path[k].nsDef)
    || (n > 0 && ns in path[n - 1].nsDef[..i])
  }

  lemma {:induction false} NearestIsDeclared(path: Path, prefix: string)
    requires Nearest(path, prefix).Some?
    ensures exists k :: 0 <= k < |path| && Nearest(path, prefix).value in path[k].nsDef
  {
    FindDefFound(Current(path).nsDef, prefix);
    if FindDef(Current(path).nsDef, prefix).None? {
      NearestIsDeclared(Parent(path), prefix);
      var k :| 0 <= k < |Parent(path)| && Nearest(path, prefix).value in Parent(path)[k].nsDef;
      assert Nearest(path, prefix).value in path[k].nsDef;
    } else {
      assert Nearest(path, prefix).value in path[|path| - 1].nsDef;
    }
  }

  lemma {:induction false} LegalOnPath(path: Path, k: nat)
    requires WellFormedPath(path) && k < |path|
    ensures forall d :: d in path[k].nsDef ==> LegalDef(d)
  {
    if k < |path| - 1 { LegalOnPath(Parent(path), k); }
  }

  lemma NearestLegal(path: Path, prefix: string)
    requires WellFormedPath(path) && Nearest(path, prefix).Some?
    ensures LegalDef(Nearest(path, prefix).value) && Nearest(path, prefix).value.prefix == prefix
  {
    NearestPrefix(path, prefix);
    NearestIsDeclared(path, prefix);
    var k :| 0 <= k < |path| && Nearest(path, prefix).value in path[k].nsDef;
    LegalOnPath(path, k);
  }

  /** What the loop over the axis has pushed: the declarations in scope among those visited. */
  ghost predicate BlockDone(path: Path, n: nat, i: nat, block: seq<Ns>)
    requires n <= |path| && (n == 0 ==> i == 0) && (n > 0 ==> i <= |path[n - 1].nsDef|)
  {
    && (forall d :: d in block ==> OnAxis(path, d) && LegalDef(d))
    && (forall d :: Visited(path, n, i, d) && OnAxis(path, d) ==> d in block)
  }

  /** What it has listed: those pushed that differ from the output parent's binding. */
  ghost predicate ListDone(outer: Env, block: seq<Ns>, list: seq<Ns>)
  {
    L.Lists(ToDecls(list), Changed(block, outer), DeclCompare)
  }

  ghost function Changed(block: seq<Ns>, outer: Env): set<Decl>
  {
    set d | d in block && d.href != Uri(outer, d.prefix) :: ToDecl(d)
  }

  lemma ChangedStep(block: seq<Ns>, ns: Ns, outer: Env)
    ensures Changed(block + [ns], outer) ==
            Changed(block, outer) + (if ns.href != Uri(outer, ns.prefix) then {ToDecl(ns)} else {})
    ensures ns in block ==> Changed(block + [ns], outer) == Changed(block, outer)
  {
  }

  /** Inserting a declaration of a new prefix keeps the list the ascending listing of its set. */
  lemma ListStep(list: seq<Ns>, ns: Ns, S: set<Decl>)
    requires L.Lists(ToDecls(list), S, DeclCompare)
    requires forall d :: d in S ==> d.prefix != ns.prefix
    ensures L.Lists(ToDecls(L.Insert(list, ns, NsCompare)), S + {ToDecl(ns)}, DeclCompare)
  {
    InsertDecl(list, ns);
    P.DeclOrder();
    PrefixesSeparate(ToDecls(list), S, ToDecl(ns));
    L.InsertLists(ToDecls(list), ToDecl(ns), S, DeclCompare);
  }

  lemma PrefixesSeparate(ds: seq<Decl>, S: set<Decl>, d: Decl)
    requires L.Lists(ds, S, DeclCompare) && forall x :: x in S ==> x.prefix != d.prefix
    ensures L.Separates(DeclCompare, S + {d})
  {
    var all := S + {d};
    forall a, b | a in all && b in all && a != b
      ensures DeclCompare(a, b) < 0 || DeclCompare(b, a) < 0
    {
      assert a.prefix != b.prefix by {
        if a in S && b in S { ListedPrefixes(ds, S, a, b); }
      }
      CompareSound(a.prefix, b.prefix);
      CompareSound(b.prefix, a.prefix);
    }
  }

  lemma ListedPrefixes(ds: seq<Decl>, S: set<Decl>, a: Decl, b: Decl)
    requires L.Lists(ds, S, DeclCompare) && a in S && b in S && a != b
    ensures a.prefix != b.prefix
  {
    P.AscendingUnique(ds);
    var i :| 0 <= i < |ds| && ds[i] == a;
    var j :| 0 <= j < |ds| && ds[j] == b;
  }

  /** One more declaration on the axis. */
  lemma BlockStep(path: Path, n: nat, i: nat, block: seq<Ns>, ns: Ns)
    requires 0 < n <= |path| && i < |path[n - 1].nsDef| && ns == path[n - 1].nsDef[i]
    requires BlockDone(path, n, i, block)
    requires OnAxis(path, ns) && LegalDef(ns)
    ensures BlockDone(path, n, i + 1, block + [ns])
  {
    VisitedStep(path, n, i);
  }

  lemma ListDoneStep(path: Path, outer: Env, block: seq<Ns>, list: seq<Ns>, ns: Ns, found: bool)
    requires ListDone(outer, block, list)
    requires OnAxis(path, ns) && forall d :: d in block ==> OnAxis(path, d)
    requires found <==> HasPrefix(block, ns.prefix) || Uri(outer, ns.prefix) == ns.href
    ensures ListDone(outer, block + [ns], if found then list else L.Insert(list, ns, NsCompare))
  {
    ChangedStep(block, ns, outer);
    if HasPrefix(block, ns.prefix) {
      var k :| 0 <= k < |block| && block[k].prefix == ns.prefix;
      assert block[k] in block && block[k] == ns;
    } else if !found {
      forall d | d in Changed(block, outer) ensures d.prefix != ns.prefix {
        var x :| x in block && d == ToDecl(x);
        var k :| 0 <= k < |block| && block[k] == x;
      }
      ListStep(list, ns, Changed(block, outer));
    }
  }

  lemma BlockSkip(path: Path, n: nat, i: nat, block: seq<Ns>)
    requires 0 < n <= |path| && i < |path[n - 1].nsDef|
    requires BlockDone(path, n, i, block) && !OnAxis(path, path[n - 1].nsDef[i])
    ensures BlockDone(path, n, i + 1, block)
  {
    VisitedStep(path, n, i);
  }

  lemma BlockNext(path: Path, n: nat, block: seq<Ns>)
    requires 0 < n <= |path| && BlockDone(path, n, |path[n - 1].nsDef|, block)
    ensures BlockDone(path, n - 1, 0, block)
  {
    forall d | Visited(path, n - 1, 0, d) && OnAxis(path, d) ensures d in block {
      VisitedNext(path, n, d);
    }
  }

  lemma HasPrefixStep(block: seq<Ns>, ns: Ns)
    ensures forall p :: HasPrefix(block + [ns], p) <==> HasPrefix(block, p) || p == ns.prefix
  {
    var b := block + [ns];
    assert b[|block|] == ns;
    forall p ensures HasPrefix(b, p) <==> HasPrefix(block, p) || p == ns.prefix {
      if HasPrefix(block, p) {
        var i :| 0 <= i < |block| && block[i].prefix == p;
        assert b[i].prefix == p;
      }
    }
  }

  lemma VisitedStep(path: Path, n: nat, i: nat)
    requires 0 < n <= |path| && i < |path[n - 1].nsDef|
    ensures forall d :: Visited(path, n, i + 1, d) <==> Visited(path, n, i, d) || d == path[n - 1].nsDef[i]
  {
    var defs := path[n - 1].nsDef;
    TakeOne(defs, i);
    forall d ensures Visited(path, n, i + 1, d) <==> Visited(path, n, i, d) || d == defs[i] {
      assert d in defs[..i + 1] <==> d in defs[..i] || d == defs[i];
    }
  }

  lemma VisitedNext(path: Path, n: nat, d: Ns)
    requires 0 < n <= |path|
    ensures Visited(path, n - 1, 0, d) ==> Visited(path, n, |path[n - 1].nsDef|, d)
  {
    assert path[n - 1].nsDef[..|path[n - 1].nsDef|] == path[n - 1].nsDef;
  }

  // ----- what the stack stands for

  /** At entry to a node the stack answers for the bindings of the output parent: through the window
      of the previous element in inclusive mode, as a whole in exclusive mode. */
  ghost predicate Agrees(exclusive: bool, live: seq<Ns>, state: StackState, outer: Env)
    requires state.nsPrevStart <= state.nsPrevEnd <= state.nsCurEnd == |live|
  {
    && state.nsPrevEnd == state.nsCurEnd
    && (forall p :: p != "xml" ==> TopUri(if exclusive then live else live[state.nsPrevStart..], p) == Uri(outer, p))
    && TopUri(live, "") == Uri(outer, "")
  }

  lemma TopUriOfAxis(path: Path, block: seq<Ns>, p: string)
    requires WellFormedPath(path) && p != "xml"
    requires forall d :: d in block ==> OnAxis(path, d)
    requires forall d :: OnAxis(path, d) ==> d in block
    ensures TopUri(block, p) == Uri(InScope(path), p)
    ensures HasPrefix(block, p) <==> Nearest(path, p).Some?
  {
    TopUriIsMember(block, p);
    UriIsNearest(path, p);
    NearestPrefix(path, p);
    if HasPrefix(block, p) {
      var i :| 0 <= i < |block| && block[i].prefix == p && block[i].href == TopUri(block, p);
      assert block[i] in block;
    } else if Nearest(path, p).Some? {
      assert OnAxis(path, Nearest(path, p).value);
    }
  }

  /** Once the whole axis is visited, the listed declarations are the prescribed ones and the pushed
      block stands for the bindings of the element itself. */
  lemma AxisComplete(path: Path, block: seq<Ns>, list: seq<Ns>)
    requires path != [] && WellFormedPath(path)
    requires BlockDone(path, 0, 0, block) && ListDone(InScope(Parent(path)), block, list)
    ensures ToDecls(list) == DeclsOf(false, path)
    ensures forall p :: p != "xml" ==> TopUri(block, p) == Uri(InScope(path), p)
    ensures HasPrefix(block, "") <==> Nearest(path, "").Some?
  {
    var outer := InScope(Parent(path));
    P.InclusiveReadBack(Parent(path));
    InScopeNormal(path);
    InScopeNormal(Parent(path));
    forall d | OnAxis(path, d) ensures d in block {
      NearestIsDeclared(path, d.prefix);
      var k :| 0 <= k < |path| && d in path[k].nsDef;
      assert Visited(path, 0, 0, d);
    }
    forall p | p != "xml"
      ensures TopUri(block, p) == Uri(InScope(path), p)
      ensures HasPrefix(block, p) <==> Nearest(path, p).Some?
    {
      TopUriOfAxis(path, block, p);
    }
    var S := Emitted(false, path, outer);
    forall d | d in S ensures d in Changed(block, outer) {
      UriIsNearest(path, d.prefix);
      UriIsNearest(Parent(path), d.prefix);
      NearestPrefix(path, d.prefix);
      var ns := Nearest(path, d.prefix).value;
      assert OnAxis(path, ns);
    }
    forall d | d in Changed(block, outer) ensures d in S {
      var ns :| ns in block && ns.href != Uri(outer, ns.prefix) && d == ToDecl(ns);
      UriIsNearest(path, ns.prefix);
    }
    assert S == Changed(block, outer);
    P.DeclOrder();
    L.SortedIs(ToDecls(list), S, DeclCompare);
  }

  /** What the stack answers before the first push, for the output parent's bindings. */
  ghost predicate AxisBase(base: seq<Ns>, start: nat, outer: Env)
    requires start <= |base|
  {
    && (forall p :: p != "xml" ==> TopUri(base[start..], p) == Uri(outer, p))
    && TopUri(base, "") == Uri(outer, "")
  }

  /** xmlC14NVisibleNsStackFind answers "already pushed here, or bound so in the output parent". */
  lemma AxisFound(path: Path, base: seq<Ns>, start: nat, block: seq<Ns>, ns: Ns)
    requires start <= |base| && path != [] && AxisBase(base, start, InScope(Parent(path)))
    requires OnAxis(path, ns) && LegalDef(ns) && forall d :: d in block ==> OnAxis(path, d)
    ensures Rendered((base + block)[if ns.prefix == "" && ns.href == "" then 0 else start..], ns)
            <==> HasPrefix(block, ns.prefix) || Uri(InScope(Parent(path)), ns.prefix) == ns.href
  {
    assert (base + block)[0..] == base + block;
    assert (base + block)[start..] == base[start..] + block;
    FoundMeans(if ns.prefix == "" && ns.href == "" then base else base[start..],
      block, InScope(Parent(path)), path, ns);
  }

  /** With the whole axis pushed, the block stands for the bindings of the element. */
  lemma AxisStands(path: Path, base: seq<Ns>, start: nat, block: seq<Ns>)
    requires path != [] && WellFormedPath(path)
    requires start <= |base| && AxisBase(base, start, InScope(Parent(path)))
    requires forall p :: p != "xml" ==> TopUri(block, p) == Uri(InScope(path), p)
    requires HasPrefix(block, "") <==> Nearest(path, "").Some?
    ensures AxisAgrees(false, base + block, |base|, path)
  {
    P.InclusiveReadBack(path);
    assert (base + block)[|base|..] == block;
    TopUriAppend(base, block, "");
    UriIsNearest(path, "");
    UriIsNearest(Parent(path), "");
  }

  /** Without a default declaration anywhere on the path, xmlns="" counts as rendered. */
  lemma NoEmptyDefault(path: Path, base: seq<Ns>, block: seq<Ns>, nsDefault: Ns)
    requires WellFormedPath(path) && Nearest(path, "").None?
    requires AxisAgrees(false, base + block, |base|, path)
    requires nsDefault.prefix == "" && nsDefault.href == ""
    ensures Rendered((base + block)[0..], nsDefault)
  {
    assert (base + block)[0..] == base + block;
    P.InclusiveReadBack(path);
    UriIsNearest(path, "");
    RenderedIsTopUri(base + block, nsDefault);
  }

  lemma NoEmptyDefaultExclusive(path: Path, live: seq<Ns>, nsDefault: Ns)
    requires WellFormedPath(path) && Nearest(path, "").None?
    requires TopUri(live, "") == Uri(OutEnv(true, path), "")
    requires nsDefault.prefix == "" && nsDefault.href == ""
    ensures Rendered(live, nsDefault)
  {
    RenderedIsTopUri(live, nsDefault);
    if Uri(OutEnv(true, path), "") != "" { OutEnvDeclared(true, path, ""); }
  }

  lemma {:induction false} PrintDeclsPush(ds: seq<Decl>, d: Decl)
    ensures PrintDecls(ds + [d]) == PrintDecls(ds) + PrintDecl(d)
  {
    if ds == [] {
      assert [] + [d] == [d] && [d][1..] == [];
      assert PrintDecl(d) + "" == PrintDecl(d) && "" + PrintDecl(d) == PrintDecl(d);
    } else {
      assert (ds + [d])[1..] == ds[1..] + [d];
      PrintDeclsPush(ds[1..], d);
      Assoc(PrintDecl(ds[0]), PrintDecls(ds[1..]), PrintDecl(d));
    }
  }

  lemma PrintDeclsStep(ds: seq<Decl>, i: nat)
    requires i < |ds|
    ensures PrintDecls(ds[..i + 1]) == PrintDecls(ds[..i]) + PrintDecl(ds[i])
    ensures PrintDecls(ds[..|ds|]) == PrintDecls(ds)
  {
    assert ds[..|ds|] == ds;
    TakeOne(ds, i);
    PrintDeclsPush(ds[..i], ds[i]);
  }

  // ----- exclusive mode: the prefixes an element uses

  lemma {:induction false} OutEnvDeclared(exclusive: bool, path: Path, p: string)
    requires WellFormedPath(path) && p != "xml" && Uri(OutEnv(exclusive, path), p) != ""
    ensures Nearest(path, p).Some?
  {
    if path != [] {
      P.ReadBack(exclusive, path, p);
      UriIsNearest(path, p);
      if Uri(OutEnv(exclusive, Parent(path)), p) != "" {
        OutEnvDeclared(exclusive, Parent(path), p);
      }
    }
  }

  lemma UtilizedOnAxis(path: Path, p: string)
    requires path != [] && WellFormedPath(path) && p != "xml"
    requires p in Utilized(Current(path)) && Nearest(path, p).None?
    ensures p == "" && Current(path).ns.None?
    ensures Uri(InScope(path), p) == "" && forall exclusive :: Uri(OutEnv(exclusive, Parent(path)), p) == ""
  {
    UriIsNearest(path, p);
    forall exclusive ensures Uri(OutEnv(exclusive, Parent(path)), p) == "" {
      if Uri(OutEnv(exclusive, Parent(path)), p) != "" { OutEnvDeclared(exclusive, Parent(path), p); }
    }
  }

  /** The block pushed for an element: in-scope declarations of the prefixes it uses, all of them. */
  ghost predicate UsesDone(path: Path, block: seq<Ns>, used: set<string>)
  {
    && (forall d :: d in block ==> OnAxis(path, d) && LegalDef(d) && d.prefix in used)
    && (forall p :: p in used && p != "xml" && Nearest(path, p).Some? ==> HasPrefix(block, p))
  }

  lemma UsesStep(path: Path, block: seq<Ns>, used: set<string>, ns: Ns)
    requires UsesDone(path, block, used) && OnAxis(path, ns) && LegalDef(ns)
    ensures UsesDone(path, block + [ns], used + {ns.prefix})
  {
    var b := block + [ns];
    assert b[|block|].prefix == ns.prefix;
    forall p | HasPrefix(block, p) ensures HasPrefix(b, p) {
      var i :| 0 <= i < |block| && block[i].prefix == p;
      assert b[i].prefix == p;
    }
  }

  /** Once every used prefix is covered, the listed declarations are the prescribed ones and the
      whole stack stands for the bindings of the output at this element. */
  lemma UsesComplete(path: Path, base: seq<Ns>, block: seq<Ns>, list: seq<Ns>)
    requires path != [] && WellFormedPath(path)
    requires UsesDone(path, block, Utilized(Current(path)))
    requires ListDone(OutEnv(true, Parent(path)), block, list)
    requires forall p :: p != "xml" ==> TopUri(base, p) == Uri(OutEnv(true, Parent(path)), p)
    ensures ToDecls(list) == DeclsOf(true, path)
    ensures forall p :: p != "xml" ==> TopUri(base + block, p) == Uri(OutEnv(true, path), p)
  {
    var outer := OutEnv(true, Parent(path));
    var S := Emitted(true, path, outer);
    forall d | d in S ensures d in Changed(block, outer) {
      var p := d.prefix;
      if Nearest(path, p).None? { UtilizedOnAxis(path, p); }
      var i :| 0 <= i < |block| && block[i].prefix == p;
      assert block[i] in block;
      UriIsNearest(path, p);
    }
    forall d | d in Changed(block, outer) ensures d in S {
      var ns :| ns in block && ns.href != Uri(outer, ns.prefix) && d == ToDecl(ns);
      UriIsNearest(path, ns.prefix);
    }
    assert S == Changed(block, outer);
    P.DeclOrder();
    L.SortedIs(ToDecls(list), S, DeclCompare);
    forall p | p != "xml" ensures TopUri(base + block, p) == Uri(OutEnv(true, path), p) {
      TopUriAppend(base, block, p);
      P.ReadBack(true, path, p);
      if HasPrefix(block, p) {
        TopUriIsMember(block, p);
        UriIsNearest(path, p);
        var i :| 0 <= i < |block| && block[i].prefix == p && block[i].href == TopUri(block, p);
        assert block[i] in block;
      } else if p in Utilized(Current(path)) {
        UtilizedOnAxis(path, p);
      }
    }
  }

  /** After the namespace axis of the last element of `path`, with `start` the stack height before. */
  ghost predicate AxisAgrees(exclusive: bool, live: seq<Ns>, start: nat, path: Path)
    requires start <= |live|
  {
    && (forall p :: p != "xml" ==>
          TopUri(if exclusive then live else live[start..], p) == Uri(OutEnv(exclusive, path), p))
    && TopUri(live, "") == Uri(OutEnv(exclusive, path), "")
  }

  /** Whether a declaration counts as rendered while an element's own block is being pushed. */
  lemma FoundMeans(base: seq<Ns>, block: seq<Ns>, outer: Env, path: Path, ns: Ns)
    requires OnAxis(path, ns) && LegalDef(ns) && forall d :: d in block ==> OnAxis(path, d)
    requires TopUri(base, ns.prefix) == Uri(outer, ns.prefix)
    ensures Rendered(base + block, ns) <==> HasPrefix(block, ns.prefix) || Uri(outer, ns.prefix) == ns.href
  {
    RenderedIsTopUri(base + block, ns);
    TopUriAppend(base, block, ns.prefix);
    if HasPrefix(block, ns.prefix) {
      TopUriIsMember(block, ns.prefix);
      var i :| 0 <= i < |block| && block[i].prefix == ns.prefix && block[i].href == TopUri(block, ns.prefix);
      assert block[i] in block;
    }
  }

  // ----- attributes

  lemma {:induction false} PrintAttrsPush(cs: seq<CAttr>, c: CAttr)
    ensures PrintAttrs(cs + [c]) == PrintAttrs(cs) + PrintAttr(c)
  {
    if cs == [] {
      assert [] + [c] == [c] && [c][1..] == [];
      assert PrintAttr(c) + "" == PrintAttr(c) && "" + PrintAttr(c) == PrintAttr(c);
    } else {
      assert (cs + [c])[1..] == cs[1..] + [c];
      PrintAttrsPush(cs[1..], c);
      Assoc(PrintAttr(cs[0]), PrintAttrs(cs[1..]), PrintAttr(c));
    }
  }

  lemma PrintAttrsStep(cs: seq<CAttr>, i: nat)
    requires i < |cs|
    ensures PrintAttrs(cs[..i + 1]) == PrintAttrs(cs[..i]) + PrintAttr(cs[i])
  {
    assert cs[..i + 1] == cs[..i] + [cs[i]];
    PrintAttrsPush(cs[..i], cs[i]);
  }

  ghost predicate AttrsListed(attrs: seq<Attr>, i: nat, list: seq<Attr>)
    requires i <= |attrs|
  {
    && (forall a :: a in list ==> a in attrs)
    && L.Lists(ToCAttrs(list), set a | a in attrs[..i] :: ToCAttr(a), CAttrCompare)
  }

  lemma AttrsStep(path: Path, i: nat, list: seq<Attr>)
    requires path != [] && WellFormedElem(path) && i < |Current(path).attrs|
    requires AttrsListed(Current(path).attrs, i, list)
    ensures AttrsListed(Current(path).attrs, i + 1, L.Insert(list, Current(path).attrs[i], AttrsCompare))
  {
    var attrs := Current(path).attrs;
    var a := attrs[i];
    var S := set x | x in attrs[..i] :: ToCAttr(x);
    assert a in attrs && attrs[..i + 1] == attrs[..i] + [a];
    var S' := set x | x in attrs[..i + 1] :: ToCAttr(x);
    assert S' == S + {ToCAttr(a)};
    L.InsertElements(list, a, AttrsCompare);
    assert L.Separates(CAttrCompare, S') by { AttrsSeparate(path, i + 1); }
    forall x | x in attrs[..i] ensures ToCAttr(x) != ToCAttr(a) {
      var k :| 0 <= k < i && attrs[k] == x;
    }
    InsertAttrLists(list, a, S);
  }

  lemma InsertAttrLists(list: seq<Attr>, a: Attr, S: set<CAttr>)
    requires BoundAttr(a) && forall x :: x in list ==> BoundAttr(x)
    requires L.Lists(ToCAttrs(list), S, CAttrCompare)
    requires ToCAttr(a) !in S && L.Separates(CAttrCompare, S + {ToCAttr(a)})
    ensures L.Lists(ToCAttrs(L.Insert(list, a, AttrsCompare)), S + {ToCAttr(a)}, CAttrCompare)
  {
    InsertAttr(list, a);
    P.CAttrOrder();
    L.InsertLists(ToCAttrs(list), ToCAttr(a), S, CAttrCompare);
  }

  lemma AttrsSeparate(path: Path, n: nat)
    requires path != [] && WellFormedElem(path) && n <= |Current(path).attrs|
    ensures L.Separates(CAttrCompare, set x | x in Current(path).attrs[..n] :: ToCAttr(x))
  {
    var attrs := Current(path).attrs;
    var S := set x | x in attrs[..n] :: ToCAttr(x);
    forall a, b | a in S && b in S && a != b
      ensures CAttrCompare(a, b) < 0 || CAttrCompare(b, a) < 0
    {
      var i :| 0 <= i < n && ToCAttr(attrs[i]) == a;
      var j :| 0 <= j < n && ToCAttr(attrs[j]) == b;
      CompareSound(a.uri, b.uri);
      CompareSound(b.uri, a.uri);
      CompareSound(a.name, b.name);
      CompareSound(b.name, a.name);
    }
  }

  lemma AttrsComplete(path: Path, list: seq<Attr>)
    requires path != [] && AttrsListed(Current(path).attrs, |Current(path).attrs|, list)
    ensures ToCAttrs(list) == AttrsOf(Current(path))
  {
    var attrs := Current(path).attrs;
    assert attrs[..|attrs|] == attrs;
    P.CAttrOrder();
    L.SortedIs(ToCAttrs(list), set a | a in attrs :: ToCAttr(a), CAttrCompare);
  }

  // ----- how printing composes

  function PosAfter(cs: seq<CNode>, pos: Position, top: bool): Position
  {
    if cs == [] then pos else PosAfter(cs[1..], if top && cs[0].CElem? then After else pos, top)
  }

  lemma {:induction false} PosUnmoved(cs: seq<CNode>, pos: Position)
    ensures PosAfter(cs, pos, false) == pos
  {
    if cs != [] { PosUnmoved(cs[1..], pos); }
  }

  lemma {:induction false} PrintAppend(a: seq<CNode>, b: seq<CNode>, pos: Position, top: bool)
    ensures Print(a + b, pos, top) == Print(a, pos, top) + Print(b, PosAfter(a, pos, top), top)
    ensures PosAfter(a + b, pos, top) == PosAfter(b, PosAfter(a, pos, top), top)
    decreases |a|
  {
    if a == [] {
      assert a + b == b;
    } else {
      assert (a + b)[0] == a[0] && (a + b)[1..] == a[1..] + b;
      var next := if top && a[0].CElem? then After else pos;
      PrintAppend(a[1..], b, next, top);
      Assoc(PrintNode(a[0], pos, top), Print(a[1..], next, top), Print(b, PosAfter(a, pos, top), top));
    }
  }

  lemma PrintOne(m: Mode, path: Path, cur: Node, pos: Position, top: bool)
    ensures var cs := CanonNode(m, path, cur);
            && (cs == [] ==> Print(cs, pos, top) == "" && PosAfter(cs, pos, top) == pos)
            && (|cs| == 1 ==> Print(cs, pos, top) == PrintNode(cs[0], pos, top))
            && (|cs| == 1 ==> PosAfter(cs, pos, top) == if top && cs[0].CElem? then After else pos)
  {
    var cs := CanonNode(m, path, cur);
    if |cs| == 1 {
      assert cs[1..] == [];
      var p := PrintNode(cs[0], pos, top);
      assert p + "" == p;
    }
  }

  ghost function StartTag(m: Mode, path: Path): string
    requires path != []
  {
    var e := Current(path);
    "<" + QName(NsPrefix(e.ns), e.name) + PrintDecls(DeclsOf(m.exclusive, path)) + PrintAttrs(AttrsOf(e)) + ">"
  }

  lemma PrintElement(m: Mode, path: Path, e: Elem, children: seq<Node>, pos: Position, top: bool)
    ensures PrintNode(CanonNode(m, path, Element(e, children))[0], pos, top) ==
            StartTag(m, path + [e])
            + Print(CanonList(m, path + [e], children), if top then Inside else pos, false)
            + ("</" + QName(NsPrefix(e.ns), e.name) + ">")
  {
    var p := path + [e];
    assert Current(p) == e;
    var body := StartTag(m, p) + Print(CanonList(m, p, children), if top then Inside else pos, false);
    Assoc(body, "</", QName(NsPrefix(e.ns), e.name));
    Assoc(body, "</" + QName(NsPrefix(e.ns), e.name), ">");
  }

  lemma EnterElement(path: Path, e: Elem, children: seq<Node>)
    requires WellFormedPath(path) && WellFormed(path, Element(e, children))
    ensures Parent(path + [e]) == path && WellFormedPath(path + [e]) && WellFormedList(path + [e], children)
  {
  }

  /** Start tag, content and end tag written one after the other are the printed element. */
  lemma ElementWritten(m: Mode, path: Path, e: Elem, children: seq<Node>, start: string, pos: Position, top: bool)
    ensures var inner := path + [e];
            var childPos := if top then Inside else pos;
            && start + StartTag(m, inner) + Print(CanonList(m, inner, children), childPos, false)
               + ("</" + QName(NsPrefix(e.ns), e.name) + ">")
               == start + PrintNode(CanonNode(m, path, Element(e, children))[0], pos, top)
            && PosAfter(CanonList(m, inner, children), childPos, false) == childPos
  {
    var inner := path + [e];
    var childPos := if top then Inside else pos;
    var content := Print(CanonList(m, inner, children), childPos, false);
    PosUnmoved(CanonList(m, inner, children), childPos);
    PrintElement(m, path, e, children, pos, top);
    Assoc(start, StartTag(m, inner), content);
    Assoc(start, StartTag(m, inner) + content, "</" + QName(NsPrefix(e.ns), e.name) + ">");
  }

  /** Printing the first `i` of `nodes` gave `printed` and moved the position from `pos0` to `pos`. */
  ghost predicate Walked(m: Mode, path: Path, nodes: seq<Node>, i: nat, pos0: Position, pos: Position, top: bool,
      printed: string)
    requires i <= |nodes|
  {
    && printed + Print(CanonList(m, path, nodes[i..]), pos, top) == Print(CanonList(m, path, nodes), pos0, top)
    && PosAfter(CanonList(m, path, nodes[i..]), pos, top) == PosAfter(CanonList(m, path, nodes), pos0, top)
    && (ProcessableList(nodes) <==> ProcessableList(nodes[i..]))
  }

  lemma WalkStep(m: Mode, path: Path, nodes: seq<Node>, i: nat, pos0: Position, pos: Position, top: bool,
      printed: string)
    requires i < |nodes| && Walked(m, path, nodes, i, pos0, pos, top, printed)
    ensures !Processable(nodes[i]) ==> !ProcessableList(nodes)
    ensures Processable(nodes[i]) ==>
              var here := CanonNode(m, path, nodes[i]);
              Walked(m, path, nodes, i + 1, pos0, PosAfter(here, pos, top), top, printed + Print(here, pos, top))
  {
    var here := CanonNode(m, path, nodes[i]);
    var rest := CanonList(m, path, nodes[i + 1..]);
    assert nodes[i..][1..] == nodes[i + 1..] && nodes[i..][0] == nodes[i];
    PrintAppend(here, rest, pos, top);
    Assoc(printed, Print(here, pos, top), Print(rest, PosAfter(here, pos, top), top));
  }

  lemma WalkStart(m: Mode, path: Path, nodes: seq<Node>, pos: Position, top: bool)
    ensures Walked(m, path, nodes, 0, pos, pos, top, "")
  {
    assert nodes[0..] == nodes;
    var all := Print(CanonList(m, path, nodes), pos, top);
    assert "" + all == all;
  }

  lemma WalkEnd(m: Mode, path: Path, nodes: seq<Node>, pos0: Position, pos: Position, top: bool, printed: string)
    requires Walked(m, path, nodes, |nodes|, pos0, pos, top, printed)
    ensures printed == Print(CanonList(m, path, nodes), pos0, top)
    ensures pos == PosAfter(CanonList(m, path, nodes), pos0, top) && ProcessableList(nodes)
  {
    assert nodes[|nodes|..] == [];
    assert printed + "" == printed;
  }

  lemma {:induction false} WellFormedEach(path: Path, nodes: seq<Node>)
    requires WellFormedList(path, nodes)
    ensures forall k :: 0 <= k < |nodes| ==> WellFormed(path, nodes[k])
  {
    if nodes != [] {
      WellFormedEach(path, nodes[1..]);
      assert nodes == [nodes[0]] + nodes[1..];
    }
  }

  function UsedPrefixes(attrs: seq<Attr>): set<string>
  {
    set a | a in attrs && a.ns.Some? :: a.ns.value.prefix
  }

  lemma UsedStep(attrs: seq<Attr>, i: nat)
    requires i < |attrs|
    ensures attrs[i] in attrs
    ensures UsedPrefixes(attrs[..i + 1])
            == UsedPrefixes(attrs[..i]) + if attrs[i].ns.Some? then {attrs[i].ns.value.prefix} else {}
  {
    assert attrs[..i + 1] == attrs[..i] + [attrs[i]];
  }

  // ----- the context and the walk

  class C14NCtx {
    const mode: Mode
    const nsRendered: VisibleNsStack
    var buf: string
    var pos: Position
    var parentIsDoc: bool

    constructor (mode: Mode)
      ensures this.mode == mode && fresh(nsRendered) && fresh(nsRendered.nsTab)
      ensures buf == "" && pos == Before && parentIsDoc
      ensures Ready([])
    {
      this.mode := mode;
      buf, pos, parentIsDoc := "", Before, true;
      nsRendered := new VisibleNsStack();
      new;
      assert nsRendered.Live() == [];
    }

    /** The stack stands for the output bindings at the last element of `path`. */
    ghost predicate Ready(path: Path)
      reads this, nsRendered, nsRendered.nsTab
    {
      && nsRendered.Valid()
      && Agrees(mode.exclusive, nsRendered.Live(), nsRendered.State(), OutEnv(mode.exclusive, path))
    }

    method Write(s: string)
      modifies this`buf
      ensures buf == old(buf) + s
    {
      buf := buf + s;
    }

    /** xmlC14NPrintNamespaces */
    method PrintNamespaces(ns: Ns)
      modifies this`buf
      ensures buf == old(buf) + PrintDecl(ToDecl(ns))
    {
      ghost var start := buf;
      ghost var head := if ns.prefix != "" then " xmlns:" + ns.prefix + "=" else " xmlns=";
      if ns.prefix != "" {
        Write(" xmlns:");
        Write(ns.prefix);
        Assoc(start, " xmlns:", ns.prefix);
        Write("=");
        Assoc(start, " xmlns:" + ns.prefix, "=");
      } else {
        Write(" xmlns=");
      }
      var quoted := Quoted(ns.href);
      Write(quoted);
      Assoc(start, head, quoted);
    }

    method PrintUnless(alreadyRendered: bool, ns: Ns)
      modifies this`buf
      ensures buf == if alreadyRendered then old(buf) else old(buf) + PrintDecl(ToDecl(ns))
    {
      if !alreadyRendered {
        PrintNamespaces(ns);
      }
    }

    /** xmlListWalk with xmlC14NPrintNamespaces */
    method WalkNamespaces(list: seq<Ns>)
      modifies this`buf
      ensures buf == old(buf) + PrintDecls(ToDecls(list))
    {
      ghost var ds := ToDecls(list);
      var i := 0;
      while i < |list|
        invariant 0 <= i <= |list|
        invariant buf == old(buf) + PrintDecls(ds[..i])
      {
        PrintNamespaces(list[i]);
        PrintDeclsStep(ds, i);
        Assoc(old(buf), PrintDecls(ds[..i]), PrintDecl(ds[i]));
        i := i + 1;
      }
      assert ds[..i] == ds;
    }

    /** One declaration met on the axis: push it and list it, unless a nearer one hides it. */
    method VisitDeclaration(path: Path, n: nat, i: nat, list: seq<Ns>, ghost base: seq<Ns>, ghost block: seq<Ns>)
      returns (newList: seq<Ns>, pushed: bool)
      requires WellFormedPath(path) && 0 < n <= |path| && i < |path[n - 1].nsDef| && !mode.exclusive
      requires nsRendered.Valid() && nsRendered.Live() == base + block && nsRendered.nsPrevStart <= |base|
      requires AxisBase(base, nsRendered.nsPrevStart, InScope(Parent(path)))
      requires BlockDone(path, n, i, block) && ListDone(InScope(Parent(path)), block, list)
      modifies nsRendered`nsCurEnd, nsRendered`nsTab, nsRendered.nsTab
      ensures nsRendered.Valid() && (nsRendered.nsTab == old(nsRendered.nsTab) || fresh(nsRendered.nsTab))
      ensures var newBlock := if pushed then block + [path[n - 1].nsDef[i]] else block;
              && nsRendered.Live() == base + newBlock
              && BlockDone(path, n, i + 1, newBlock)
              && ListDone(InScope(Parent(path)), newBlock, newList)
    {
      var ns := path[n - 1].nsDef[i];
      var tmp := SearchNs(path, ns.prefix);
      if ns.prefix != "xml" { SearchIsNearest(path, ns.prefix, true); }
      newList := list;
      pushed := tmp == Some(ns) && !IsXmlNs(ns);
      LegalOnPath(path, n - 1);
      if pushed {
        var alreadyRendered := nsRendered.Find(ns);
        AxisFound(path, base, nsRendered.nsPrevStart, block, ns);
        nsRendered.Add(ns);
        if !alreadyRendered {
          newList := L.Insert(list, ns, NsCompare);
        }
        BlockStep(path, n, i, block, ns);
        ListDoneStep(path, InScope(Parent(path)), block, list, ns, alreadyRendered);
        assert (base + block) + [ns] == base + (block + [ns]);
      } else {
        BlockSkip(path, n, i, block);
      }
    }

    /** The inner loop: all declarations of one element of `path`. */
    method VisitElement(path: Path, n: nat, list: seq<Ns>, hasEmptyNs: bool, ghost base: seq<Ns>, ghost block: seq<Ns>)
      returns (newList: seq<Ns>, newHasEmptyNs: bool, ghost newBlock: seq<Ns>)
      requires WellFormedPath(path) && 0 < n <= |path| && !mode.exclusive
      requires nsRendered.Valid() && nsRendered.Live() == base + block && nsRendered.nsPrevStart <= |base|
      requires AxisBase(base, nsRendered.nsPrevStart, InScope(Parent(path)))
      requires BlockDone(path, n, 0, block) && ListDone(InScope(Parent(path)), block, list)
      requires hasEmptyNs <==> HasPrefix(block, "")
      modifies nsRendered`nsCurEnd, nsRendered`nsTab, nsRendered.nsTab
      ensures nsRendered.Valid() && (nsRendered.nsTab == old(nsRendered.nsTab) || fresh(nsRendered.nsTab))
      ensures nsRendered.Live() == base + newBlock
      ensures BlockDone(path, n - 1, 0, newBlock) && ListDone(InScope(Parent(path)), newBlock, newList)
      ensures newHasEmptyNs <==> HasPrefix(newBlock, "")
    {
      newList, newHasEmptyNs, newBlock := list, hasEmptyNs, block;
      var defs := path[n - 1].nsDef;
      var i := 0;
      while i < |defs|
        invariant 0 <= i <= |defs|
        invariant nsRendered.Valid() && (nsRendered.nsTab == old(nsRendered.nsTab) || fresh(nsRendered.nsTab))
        invariant nsRendered.Live() == base + newBlock
        invariant BlockDone(path, n, i, newBlock) && ListDone(InScope(Parent(path)), newBlock, newList)
        invariant newHasEmptyNs <==> HasPrefix(newBlock, "")
      {
        var pushed;
        newList, pushed := VisitDeclaration(path, n, i, newList, base, newBlock);
        if pushed {
          HasPrefixStep(newBlock, defs[i]);
          newBlock := newBlock + [defs[i]];
          if |defs[i].prefix| == 0 {
            newHasEmptyNs := true;
          }
        }
        i := i + 1;
      }
      BlockNext(path, n, newBlock);
    }

    /** The outer loop over the axis: the element itself first, then its ancestors. */
    method CollectAxis(path: Path) returns (list: seq<Ns>, hasEmptyNs: bool, ghost block: seq<Ns>)
      requires path != [] && WellFormedPath(path) && !mode.exclusive
      requires nsRendered.Valid() && AxisBase(nsRendered.Live(), nsRendered.nsPrevStart, InScope(Parent(path)))
      modifies nsRendered`nsCurEnd, nsRendered`nsTab, nsRendered.nsTab
      ensures nsRendered.Valid() && (nsRendered.nsTab == old(nsRendered.nsTab) || fresh(nsRendered.nsTab))
      ensures nsRendered.Live() == old(nsRendered.Live()) + block
      ensures BlockDone(path, 0, 0, block) && ListDone(InScope(Parent(path)), block, list)
      ensures hasEmptyNs <==> HasPrefix(block, "")
    {
      list, hasEmptyNs, block := [], false, [];
      ghost var base := nsRendered.Live();
      assert base == base + block;
      var n := |path|;
      while n > 0
        invariant 0 <= n <= |path|
        invariant nsRendered.Valid() && (nsRendered.nsTab == old(nsRendered.nsTab) || fresh(nsRendered.nsTab))
        invariant nsRendered.Live() == base + block
        invariant BlockDone(path, n, 0, block) && ListDone(InScope(Parent(path)), block, list)
        invariant hasEmptyNs <==> HasPrefix(block, "")
      {
        list, hasEmptyNs, block := VisitElement(path, n, list, hasEmptyNs, base, block);
        n := n - 1;
      }
    }

    /** xmlC14NProcessNamespacesAxis */
    method ProcessNamespacesAxis(path: Path)
      requires path != [] && WellFormedPath(path) && !mode.exclusive
      requires Ready(Parent(path))
      modifies this`buf, nsRendered`nsCurEnd, nsRendered`nsTab, nsRendered.nsTab
      ensures nsRendered.Valid() && (nsRendered.nsTab == old(nsRendered.nsTab) || fresh(nsRendered.nsTab))
      ensures old(nsRendered.Live()) <= nsRendered.Live()
      ensures AxisAgrees(false, nsRendered.Live(), old(nsRendered.nsCurEnd), path)
      ensures buf == old(buf) + PrintDecls(DeclsOf(false, path))
    {
      ghost var base := nsRendered.Live();
      P.InclusiveReadBack(Parent(path));
      var list, hasEmptyNs, block := CollectAxis(path);
      AxisComplete(path, block, list);
      AxisStands(path, base, nsRendered.nsPrevStart, block);
      if !hasEmptyNs {
        var nsDefault := Ns(0, "", "");
        var found := nsRendered.Find(nsDefault);
        NoEmptyDefault(path, base, block, nsDefault);
        PrintUnless(found, nsDefault);
      }
      WalkNamespaces(list);
    }

    /** Push a namespace an element or attribute uses; list it when it is not already rendered. */
    method UseNamespace(path: Path, ns: Ns, list: seq<Ns>, ghost base: seq<Ns>, ghost block: seq<Ns>,
        ghost used: set<string>)
      returns (newList: seq<Ns>)
      requires path != [] && WellFormedPath(path) && mode.exclusive
      requires OnAxis(path, ns)
      requires nsRendered.Valid() && nsRendered.Live() == base + block
      requires forall p :: p != "xml" ==> TopUri(base, p) == Uri(OutEnv(true, Parent(path)), p)
      requires UsesDone(path, block, used) && ListDone(OutEnv(true, Parent(path)), block, list)
      modifies nsRendered`nsCurEnd, nsRendered`nsTab, nsRendered.nsTab
      ensures nsRendered.Valid() && (nsRendered.nsTab == old(nsRendered.nsTab) || fresh(nsRendered.nsTab))
      ensures nsRendered.Live() == base + (block + [ns])
      ensures UsesDone(path, block + [ns], used + {ns.prefix})
      ensures ListDone(OutEnv(true, Parent(path)), block + [ns], newList)
    {
      NearestLegal(path, ns.prefix);
      var alreadyRendered := nsRendered.FindExclusive(ns);
      FoundMeans(base, block, OutEnv(true, Parent(path)), path, ns);
      newList := list;
      if !alreadyRendered {
        newList := L.Insert(list, ns, NsCompare);
      }
      nsRendered.Add(ns);
      UsesStep(path, block, used, ns);
      ListDoneStep(path, OutEnv(true, Parent(path)), block, list, ns, alreadyRendered);
      assert (base + block) + [ns] == base + (block + [ns]);
    }

    /** One attribute; no attribute is in a namespace without a prefix. */
    method UseAttribute(path: Path, attr: Attr, list: seq<Ns>, ghost base: seq<Ns>, ghost block: seq<Ns>,
        ghost used: set<string>)
      returns (newList: seq<Ns>, hasEmpty: bool, usesEmpty: bool, ghost newBlock: seq<Ns>, ghost newUsed: set<string>)
      requires path != [] && WellFormedPath(path) && mode.exclusive && attr in Current(path).attrs
      requires nsRendered.Valid() && nsRendered.Live() == base + block
      requires forall p :: p != "xml" ==> TopUri(base, p) == Uri(OutEnv(true, Parent(path)), p)
      requires UsesDone(path, block, used) && ListDone(OutEnv(true, Parent(path)), block, list)
      modifies nsRendered`nsCurEnd, nsRendered`nsTab, nsRendered.nsTab
      ensures nsRendered.Valid() && (nsRendered.nsTab == old(nsRendered.nsTab) || fresh(nsRendered.nsTab))
      ensures nsRendered.Live() == base + newBlock
      ensures newUsed == used + if attr.ns.Some? then {attr.ns.value.prefix} else {}
      ensures UsesDone(path, newBlock, newUsed) && ListDone(OutEnv(true, Parent(path)), newBlock, newList)
      ensures !hasEmpty && !usesEmpty
    {
      newList, newBlock, newUsed := list, block, used;
      hasEmpty, usesEmpty := false, false;
      if attr.ns.Some? {
        if !IsXmlNs(attr.ns.value) {
          newList := UseNamespace(path, attr.ns.value, newList, base, newBlock, used);
          newBlock := newBlock + [attr.ns.value];
          hasEmpty := |attr.ns.value.prefix| == 0;
        } else {
          usesEmpty := IsEmptyNs(attr.ns.value);
        }
        newUsed := used + {attr.ns.value.prefix};
      }
    }

    /** The loop over the attributes in exclusive mode. */
    method UseAttributes(path: Path, list: seq<Ns>, hasEmptyNs: bool, ghost base: seq<Ns>, ghost block: seq<Ns>)
      returns (newList: seq<Ns>, newHasEmptyNs: bool, utilizedEmptyNs: bool, ghost newBlock: seq<Ns>)
      requires path != [] && WellFormedPath(path) && mode.exclusive
      requires nsRendered.Valid() && nsRendered.Live() == base + block
      requires forall p :: p != "xml" ==> TopUri(base, p) == Uri(OutEnv(true, Parent(path)), p)
      requires UsesDone(path, block, {NsPrefix(Current(path).ns)})
      requires ListDone(OutEnv(true, Parent(path)), block, list)
      modifies nsRendered`nsCurEnd, nsRendered`nsTab, nsRendered.nsTab
      ensures nsRendered.Valid() && (nsRendered.nsTab == old(nsRendered.nsTab) || fresh(nsRendered.nsTab))
      ensures nsRendered.Live() == base + newBlock
      ensures UsesDone(path, newBlock, Utilized(Current(path)))
      ensures ListDone(OutEnv(true, Parent(path)), newBlock, newList)
      ensures newHasEmptyNs == hasEmptyNs && !utilizedEmptyNs
    {
      var attrs := Current(path).attrs;
      newList, newHasEmptyNs, utilizedEmptyNs, newBlock := list, hasEmptyNs, false, block;
      var i := 0;
      ghost var used := {NsPrefix(Current(path).ns)};
      while i < |attrs|
        invariant 0 <= i <= |attrs|
        invariant used == {NsPrefix(Current(path).ns)} + UsedPrefixes(attrs[..i])
        invariant nsRendered.Valid() && (nsRendered.nsTab == old(nsRendered.nsTab) || fresh(nsRendered.nsTab))
        invariant nsRendered.Live() == base + newBlock
        invariant UsesDone(path, newBlock, used)
        invariant ListDone(OutEnv(true, Parent(path)), newBlock, newList)
        invariant newHasEmptyNs == hasEmptyNs && !utilizedEmptyNs
      {
        UsedStep(attrs, i);
        var hasEmpty, usesEmpty;
        newList, hasEmpty, usesEmpty, newBlock, used := UseAttribute(path, attrs[i], newList, base, newBlock, used);
        newHasEmptyNs, utilizedEmptyNs := newHasEmptyNs || hasEmpty, utilizedEmptyNs || usesEmpty;
        i := i + 1;
      }
      assert attrs[..i] == attrs;
      assert used == Utilized(Current(path));
    }

    /** The element's own namespace: what it points at, or the default in scope. */
    method UseOwnNamespace(path: Path, ghost base: seq<Ns>)
        returns (list: seq<Ns>, hasEmptyNs: bool, ghost block: seq<Ns>)
      requires path != [] && WellFormedPath(path) && mode.exclusive
      requires nsRendered.Valid() && nsRendered.Live() == base
      requires forall p :: p != "xml" ==> TopUri(base, p) == Uri(OutEnv(true, Parent(path)), p)
      modifies nsRendered`nsCurEnd, nsRendered`nsTab, nsRendered.nsTab
      ensures nsRendered.Valid() && (nsRendered.nsTab == old(nsRendered.nsTab) || fresh(nsRendered.nsTab))
      ensures nsRendered.Live() == base + block
      ensures UsesDone(path, block, {NsPrefix(Current(path).ns)})
      ensures ListDone(OutEnv(true, Parent(path)), block, list)
      ensures Current(path).ns.None? && !hasEmptyNs ==> block == [] && Nearest(path, "").None?
    {
      list, hasEmptyNs, block := [], false, [];
      var cur := Current(path);
      var ns := if cur.ns.Some? then cur.ns else SearchNs(path, "");
      SearchIsNearest(path, "", true);
      NearestPrefix(path, "");
      assert base + [] == base;
      if ns.Some? && !IsXmlNs(ns.value) {
        list := UseNamespace(path, ns.value, list, base, block, {});
        block := [ns.value];
        assert [] + [ns.value] == block && {} + {ns.value.prefix} == {ns.value.prefix};
        if |ns.value.prefix| == 0 {
          hasEmptyNs := true;
        }
      }
    }

    /** xmlExcC14NProcessNamespacesAxis, without an inclusive prefix list */
    method ProcessNamespacesAxisExclusive(path: Path)
      requires path != [] && WellFormedPath(path) && mode.exclusive
      requires Ready(Parent(path))
      modifies this`buf, nsRendered`nsCurEnd, nsRendered`nsTab, nsRendered.nsTab
      ensures nsRendered.Valid() && (nsRendered.nsTab == old(nsRendered.nsTab) || fresh(nsRendered.nsTab))
      ensures old(nsRendered.Live()) <= nsRendered.Live()
      ensures AxisAgrees(true, nsRendered.Live(), old(nsRendered.nsCurEnd), path)
      ensures buf == old(buf) + PrintDecls(DeclsOf(true, path))
    {
      ghost var base := nsRendered.Live();
      var list, hasEmptyNs, block := UseOwnNamespace(path, base);
      var utilizedEmptyNs;
      list, hasEmptyNs, utilizedEmptyNs, block := UseAttributes(path, list, hasEmptyNs, base, block);
      UsesComplete(path, base, block, list);
      if (Current(path).ns.None? || utilizedEmptyNs) && !hasEmptyNs {
        var nsDefault := Ns(0, "", "");
        var alreadyRendered := nsRendered.FindExclusive(nsDefault);
        NoEmptyDefaultExclusive(path, base + block, nsDefault);
        PrintUnless(alreadyRendered, nsDefault);
      }
      WalkNamespaces(list);
    }

    /** xmlC14NPrintAttrs */
    method PrintAttribute(attr: Attr)
      modifies this`buf
      ensures buf == old(buf) + PrintAttr(ToCAttr(attr))
    {
      ghost var start := buf;
      ghost var name := QName(NsPrefix(attr.ns), attr.name);
      Write(" ");
      if attr.ns.Some? && |attr.ns.value.prefix| > 0 {
        Write(attr.ns.value.prefix);
        Write(":");
      }
      Write(attr.name);
      assert buf == start + (" " + name);
      Write("=\"");
      Assoc(start, " " + name, "=\"");
      var value := Norm.NormalizeString(attr.value, Norm.NormAttr);
      Write(value);
      Assoc(start, " " + name + "=\"", value);
      Write("\"");
      Assoc(start, " " + name + "=\"" + value, "\"");
    }

    /** xmlListWalk with xmlC14NPrintAttrs */
    method WalkAttributes(list: seq<Attr>)
      modifies this`buf
      ensures buf == old(buf) + PrintAttrs(ToCAttrs(list))
    {
      ghost var cs := ToCAttrs(list);
      var i := 0;
      while i < |list|
        invariant 0 <= i <= |list|
        invariant buf == old(buf) + PrintAttrs(cs[..i])
      {
        PrintAttribute(list[i]);
        PrintAttrsStep(cs, i);
        Assoc(old(buf), PrintAttrs(cs[..i]), PrintAttr(cs[i]));
        i := i + 1;
      }
      assert cs[..i] == cs;
    }

    /** xmlC14NProcessAttrsAxis: all attributes, sorted by URI and name. */
    method ProcessAttrsAxis(path: Path)
      requires path != [] && WellFormedElem(path)
      modifies this`buf
      ensures buf == old(buf) + PrintAttrs(AttrsOf(Current(path)))
    {
      var attrs := Current(path).attrs;
      var list: seq<Attr> := [];
      var i := 0;
      while i < |attrs|
        invariant 0 <= i <= |attrs|
        invariant AttrsListed(attrs, i, list)
        invariant buf == old(buf)
      {
        AttrsStep(path, i, list);
        list := L.Insert(list, attrs[i], AttrsCompare);
        i := i + 1;
      }
      AttrsComplete(path, list);
      WalkAttributes(list);
    }

    /** The start tag up to its namespace axis. */
    method OpenTag(e: Elem)
      modifies this`buf
      ensures buf == old(buf) + ("<" + QName(NsPrefix(e.ns), e.name))
    {
      Write("<");
      if e.ns.Some? && |e.ns.value.prefix| > 0 {
        Write(e.ns.value.prefix);
        Write(":");
      }
      Write(e.name);
    }

    method CloseTag(e: Elem)
      modifies this`buf
      ensures buf == old(buf) + ("</" + QName(NsPrefix(e.ns), e.name) + ">")
    {
      Write("</");
      if e.ns.Some? && |e.ns.value.prefix| > 0 {
        Write(e.ns.value.prefix);
        Write(":");
      }
      Write(e.name);
      Write(">");
    }

    /** Start tag, namespace axis, stack shift, attribute axis: what precedes the children. */
    method ProcessStart(path: Path)
      requires path != [] && WellFormedPath(path) && Ready(Parent(path))
      modifies this`buf, nsRendered, nsRendered.nsTab
      ensures nsRendered.Valid() && (nsRendered.nsTab == old(nsRendered.nsTab) || fresh(nsRendered.nsTab))
      ensures old(nsRendered.Live()) <= nsRendered.Live()
      ensures Ready(path)
      ensures buf == old(buf) + StartTag(mode, path)
    {
      var e := Current(path);
      ghost var start := buf;
      ghost var name := "<" + QName(NsPrefix(e.ns), e.name);
      ghost var decls := PrintDecls(DeclsOf(mode.exclusive, path));
      OpenTag(e);
      if !mode.exclusive {
        ProcessNamespacesAxis(path);
      } else {
        ProcessNamespacesAxisExclusive(path);
      }
      Assoc(start, name, decls);
      nsRendered.Shift();
      ProcessAttrsAxis(path);
      ghost var attrs := PrintAttrs(AttrsOf(e));
      Assoc(start, name + decls, attrs);
      Write(">");
      Assoc(start, name + decls + attrs, ">");
    }

    /** xmlC14NCheckForRelativeNamespaces */
    method CheckForRelativeNamespaces(e: Elem) returns (ok: bool)
      ensures ok == AbsoluteUris(e)
    {
      for i := 0 to |e.nsDef|
        invariant forall d :: d in e.nsDef[..i] ==> U.Accepted(d.href)
      {
        var href := e.nsDef[i].href;
        assert e.nsDef[i] in e.nsDef;
        if |href| > 0 {
          var uri := U.ParseUri(href);
          if uri.None? {
            return false;
          }
          var scheme := U.Lower(uri.value.scheme);
          if scheme != "urn" && scheme != "dav" && U.NoServer(uri.value.host) {
            return false;
          }
        }
        assert e.nsDef[..i + 1] == e.nsDef[..i] + [e.nsDef[i]];
      }
      assert e.nsDef[..|e.nsDef|] == e.nsDef;
      ok := true;
    }

    /** xmlC14NProcessElementNode */
    method ProcessElementNode(path: Path, cur: Node) returns (ok: bool)
      requires cur.Element? && WellFormedPath(path) && WellFormed(path, cur) && Ready(path)
      modifies this`buf, this`pos, this`parentIsDoc, nsRendered, nsRendered.nsTab
      ensures nsRendered.Valid() && (nsRendered.nsTab == old(nsRendered.nsTab) || fresh(nsRendered.nsTab))
      ensures ok == Processable(cur)
      ensures ok ==> Restored(old(nsRendered.Live()), old(nsRendered.State()))
      ensures ok ==> buf == old(buf) + PrintNode(CanonNode(mode, path, cur)[0], old(pos), old(parentIsDoc))
      ensures ok ==> parentIsDoc == old(parentIsDoc) && pos == if old(parentIsDoc) then After else old(pos)
      decreases cur.children, 2
    {
      var Element(e, children) := cur;
      ghost var start, live := buf, nsRendered.Live();
      ok := CheckForRelativeNamespaces(e);
      if !ok {
        return;
      }
      var state := nsRendered.Save();
      EnterElement(path, e, children);
      var wasDoc := BeginElement(path + [e]);
      ok := ProcessNodeList(path + [e], children);
      if ok {
        FinishElement(e, wasDoc, state, live);
        ElementWritten(mode, path, e, children, start, old(pos), old(parentIsDoc));
      }
    }

    /** What precedes the children, with the document flag remembered for the end tag. */
    method BeginElement(path: Path) returns (wasDoc: bool)
      requires path != [] && WellFormedPath(path) && Ready(Parent(path))
      modifies this`buf, this`pos, this`parentIsDoc, nsRendered, nsRendered.nsTab
      ensures nsRendered.Valid() && (nsRendered.nsTab == old(nsRendered.nsTab) || fresh(nsRendered.nsTab))
      ensures old(nsRendered.Live()) <= nsRendered.Live() && Ready(path)
      ensures buf == old(buf) + StartTag(mode, path)
      ensures wasDoc == old(parentIsDoc) && !parentIsDoc && pos == if wasDoc then Inside else old(pos)
    {
      wasDoc := parentIsDoc;
      if parentIsDoc {
        parentIsDoc := false;
        pos := Inside;
      }
      ProcessStart(path);
    }

    /** The end tag, and everything that was saved put back. */
    method FinishElement(e: Elem, wasDoc: bool, state: StackState, ghost live: seq<Ns>)
      requires nsRendered.Valid() && live <= nsRendered.Live()
      requires state.nsPrevStart <= state.nsPrevEnd <= state.nsCurEnd == |live|
      modifies this`buf, this`pos, this`parentIsDoc, nsRendered`nsCurEnd, nsRendered`nsPrevStart, nsRendered`nsPrevEnd
      ensures Restored(live, state)
      ensures buf == old(buf) + ("</" + QName(NsPrefix(e.ns), e.name) + ">")
      ensures parentIsDoc == (wasDoc || old(parentIsDoc)) && pos == if wasDoc then After else old(pos)
    {
      CloseTag(e);
      if wasDoc {
        parentIsDoc := true;
        pos := After;
      }
      nsRendered.Restore(state);
    }

    /** The stack is as it was: same entries, same three indices. */
    ghost predicate Restored(live: seq<Ns>, state: StackState)
      reads this, nsRendered, nsRendered.nsTab
    {
      nsRendered.Valid() && nsRendered.Live() == live && nsRendered.State() == state
    }

    /** xmlC14NProcessNode */
    method ProcessNode(path: Path, cur: Node) returns (ok: bool)
      requires WellFormedPath(path) && WellFormed(path, cur) && Ready(path)
      modifies this`buf, this`pos, this`parentIsDoc, nsRendered, nsRendered.nsTab
      ensures nsRendered.Valid() && (nsRendered.nsTab == old(nsRendered.nsTab) || fresh(nsRendered.nsTab))
      ensures ok == Processable(cur)
      ensures ok ==> Restored(old(nsRendered.Live()), old(nsRendered.State()))
      ensures ok ==> buf == old(buf) + Print(CanonNode(mode, path, cur), old(pos), old(parentIsDoc))
      ensures ok ==> parentIsDoc == old(parentIsDoc)
      ensures ok ==> pos == PosAfter(CanonNode(mode, path, cur), old(pos), old(parentIsDoc))
      decreases cur, 0
    {
      PrintOne(mode, path, cur, pos, parentIsDoc);
      match cur {
        case Element(e, children) =>
          ok := ProcessElementNode(path, cur);
        case Text(content) =>
          var buffer := Norm.NormalizeString(content, Norm.NormText);
          Write(buffer);
          ok := true;
        case CData(content) =>
          var buffer := Norm.NormalizeString(content, Norm.NormText);
          Write(buffer);
          ok := true;
        case PI(target, content) =>
          ProcessPI(target, content);
          ok := true;
        case Comment(content) =>
          if mode.withComments {
            ProcessComment(content);
          }
          ok := true;
        case Declaration =>
          ok := true;
        case EntityRef =>
          ok := false;
      }
    }

    method ProcessPI(target: string, content: string)
      modifies this`buf
      ensures buf == old(buf) + PrintPI(target, content, pos)
    {
      ghost var start := buf;
      ghost var head := (if pos.After? then "\n<?" else "<?") + target;
      if pos.After? { Write("\n<?"); } else { Write("<?"); }
      Write(target);
      Assoc(start, if pos.After? then "\n<?" else "<?", target);
      ghost var data := "";
      if content != "" {
        Write(" ");
        Assoc(start, head, " ");
        var buffer := Norm.NormalizeString(content, Norm.NormPI);
        Write(buffer);
        data := " " + buffer;
        Assoc(start, head + " ", buffer);
        Assoc(head, " ", buffer);
      } else {
        assert head + data == head;
      }
      ghost var body := head + data;
      if pos.Before? { Write("?>\n"); } else { Write("?>"); }
      Assoc(start, body, if pos.Before? then "?>\n" else "?>");
    }

    method ProcessComment(content: string)
      modifies this`buf
      ensures buf == old(buf) + PrintComment(content, pos)
    {
      ghost var start := buf;
      ghost var head := if pos.After? then "\n<!--" else "<!--";
      if pos.After? { Write("\n<!--"); } else { Write("<!--"); }
      var buffer := Norm.NormalizeString(content, Norm.NormComment);
      Write(buffer);
      Assoc(start, head, buffer);
      if pos.Before? { Write("-->\n"); } else { Write("-->"); }
      Assoc(start, head + buffer, if pos.Before? then "-->\n" else "-->");
    }

    /** One turn of the loop over sibling nodes. */
    method ProcessItem(path: Path, nodes: seq<Node>, i: nat, ghost start: string, ghost pos0: Position,
        ghost printed: string)
      returns (ok: bool, ghost newPrinted: string)
      requires WellFormedPath(path) && WellFormedList(path, nodes) && Ready(path)
      requires i < |nodes| && buf == start + printed
      requires Walked(mode, path, nodes, i, pos0, pos, parentIsDoc, printed)
      modifies this`buf, this`pos, this`parentIsDoc, nsRendered, nsRendered.nsTab
      ensures nsRendered.Valid() && (nsRendered.nsTab == old(nsRendered.nsTab) || fresh(nsRendered.nsTab))
      ensures !ok ==> !ProcessableList(nodes)
      ensures ok ==> Restored(old(nsRendered.Live()), old(nsRendered.State())) && parentIsDoc == old(parentIsDoc)
      ensures ok ==> buf == start + newPrinted
      ensures ok ==> Walked(mode, path, nodes, i + 1, pos0, pos, parentIsDoc, newPrinted)
      decreases nodes, 0
    {
      ghost var here := Print(CanonNode(mode, path, nodes[i]), pos, parentIsDoc);
      WellFormedEach(path, nodes);
      WalkStep(mode, path, nodes, i, pos0, pos, parentIsDoc, printed);
      ok := ProcessNode(path, nodes[i]);
      Assoc(start, printed, here);
      newPrinted := printed + here;
    }

    /** xmlC14NProcessNodeList: stops at the first node that cannot be processed. */
    method ProcessNodeList(path: Path, nodes: seq<Node>) returns (ok: bool)
      requires WellFormedPath(path) && WellFormedList(path, nodes) && Ready(path)
      modifies this`buf, this`pos, this`parentIsDoc, nsRendered, nsRendered.nsTab
      ensures nsRendered.Valid() && (nsRendered.nsTab == old(nsRendered.nsTab) || fresh(nsRendered.nsTab))
      ensures ok == ProcessableList(nodes)
      ensures ok ==> Restored(old(nsRendered.Live()), old(nsRendered.State()))
      ensures ok ==> buf == old(buf) + Print(CanonList(mode, path, nodes), old(pos), old(parentIsDoc))
      ensures ok ==> parentIsDoc == old(parentIsDoc)
      ensures ok ==> pos == PosAfter(CanonList(mode, path, nodes), old(pos), old(parentIsDoc))
      decreases nodes, 1
    {
      ok := true;
      var i := 0;
      ghost var live, state := nsRendered.Live(), nsRendered.State();
      ghost var printed := "";
      WalkStart(mode, path, nodes, pos, parentIsDoc);
      assert buf == buf + "";
      while i < |nodes| && ok
        invariant 0 <= i <= |nodes|
        invariant nsRendered.Valid() && (nsRendered.nsTab == old(nsRendered.nsTab) || fresh(nsRendered.nsTab))
        invariant ok ==> Restored(live, state) && parentIsDoc == old(parentIsDoc)
        invariant !ok ==> !ProcessableList(nodes)
        invariant ok ==> buf == old(buf) + printed
        invariant ok ==> Walked(mode, path, nodes, i, old(pos), pos, parentIsDoc, printed)
      {
        ok, printed := ProcessItem(path, nodes, i, old(buf), old(pos), printed);
        i := i + 1;
      }
      if ok {
        WalkEnd(mode, path, nodes, old(pos), pos, parentIsDoc, printed);
      }
    }

    /** The children of the document, written to an empty buffer. */
    method WholeDocument(doc: seq<Node>) returns (ok: bool, text: string)
      requires WellFormedList([], doc) && Ready([]) && buf == "" && pos == Before && parentIsDoc
      modifies this`buf, this`pos, this`parentIsDoc, nsRendered, nsRendered.nsTab
      ensures ok == ProcessableList(doc)
      ensures ok ==> text == Print(CanonList(mode, [], doc), Before, true)
    {
      ok := ProcessNodeList([], doc);
      text := buf;
      assert "" + text == text;
    }
  }

  /** xmlC14NExecute, without the argument checks and the flush: canonicalise a whole document. */
  method Canonicalise(mode: Mode, doc: seq<Node>) returns (ok: bool, text: string)
    requires WellFormedList([], doc)
    ensures ok == ProcessableList(doc)
    ensures ok ==> text == Print(CanonList(mode, [], doc), Before, true) && P.InOrder(CanonList(mode, [], doc))
  {
    P.CanonInOrder(mode, [], doc);
    var ctx := new C14NCtx(mode);
    ok, text := ctx.WholeDocument(doc);
  }
}
