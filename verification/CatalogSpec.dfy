/** What a catalog lookup answers: sections 6.2, 6.4 and 7.1 of OASIS XML Catalogs, on stores without
    reference cycles.  No counters, no table of delegates already tried, no order of checks within a
    pass: each step is the first applicable one. */
module CatalogSpec {
  import opened Strings
  import opened PublicId

  datatype Kind = System | Public | RewriteSystem | DelegateSystem | DelegatePublic | NextCatalog | Catalog | Other

  datatype Entry = Entry(kind: Kind, name: string, url: string, preferPublic: bool)

  /** Parsed catalog files by URL; a URL that is absent cannot be loaded. */
  type Store = map<string, seq<Entry>>

  /** Entries, by file and position, whose own file failed to load in an earlier lookup. */
  type Broken = set<(string, nat)>

  /** The identifier a delegation is about. */
  datatype Topic = OfSystem(id: string) | OfPublic(id: string)

  /** The three outcomes; for the one that ends the whole lookup the specification keeps which file cut it
      off and over which identifier. */
  datatype Answer = NotFound | Found(uri: string) | Cut(file: string, topic: Topic)

  /** What the code returns: NULL, a URI, or XML_CATAL_BREAK. */
  datatype Reply = Nothing | Uri(uri: string) | Break

  function ReplyOf(a: Answer): Reply
  {
    match a
    case NotFound => Nothing
    case Found(uri) => Uri(uri)
    case Cut(_, _) => Break
  }

  predicate Loads(store: Store, url: string)
  {
    url in store && store[url] != []
  }

  predicate IsDelegate(e: Entry) { e.kind.DelegateSystem? || e.kind.DelegatePublic? }

  predicate IsReference(e: Entry) { IsDelegate(e) || e.kind.NextCatalog? }

  /** A reference whose file cannot be loaded. */
  predicate Missing(store: Store, x: (string, nat))
  {
    x.0 in store && x.1 < |store[x.0]| && IsReference(store[x.0][x.1]) && store[x.0][x.1].url !in store
  }

  ghost predicate AllMissing(store: Store, b: Broken)
  {
    forall x :: x in b ==> Missing(store, x)
  }

  /** A catalog never reaches itself: every reference goes to a file of lower rank. */
  ghost predicate Acyclic(store: Store, rank: map<string, nat>)
  {
    && (forall u :: u in store ==> u in rank)
    && (forall u, i | u in store && 0 <= i < |store[u]| ::
          IsReference(store[u][i]) && store[u][i].url in store ==> rank[store[u][i].url] < rank[u])
  }

  // ----- which entries apply

  predicate Matches(e: Entry, kind: Kind, id: string) { e.kind == kind && e.name == id }

  predicate Rewrites(e: Entry, sys: string)
  {
    e.kind.RewriteSystem? && e.name != "" && StartsWith(sys, e.name)
  }

  predicate DelegatesSystem(e: Entry, sys: string) { e.kind.DelegateSystem? && StartsWith(sys, e.name) }

  predicate DelegatesPublic(e: Entry, pub: string)
  {
    e.kind.DelegatePublic? && e.preferPublic && StartsWith(pub, e.name)
  }

  /** A delegate is asked about the one identifier only. */
  function PubOf(t: Topic): Option<string> { if t.OfSystem? then None else Some(t.id) }
  function SysOf(t: Topic): Option<string> { if t.OfSystem? then Some(t.id) else None }

  predicate Delegates(e: Entry, t: Topic)
  {
    if t.OfSystem? then DelegatesSystem(e, t.id) else DelegatesPublic(e, t.id)
  }

  predicate Active(url: string, i: nat, e: Entry, broken: Broken, t: Topic)
  {
    Delegates(e, t) && (url, i) !in broken
  }

  predicate AnyActive(url: string, es: seq<Entry>, broken: Broken, t: Topic)
  {
    exists i :: 0 <= i < |es| && Active(url, i, es[i], broken, t)
  }

  /** The first entry of that kind for exactly that identifier. */
  function First(es: seq<Entry>, kind: Kind, id: string): (r: Option<nat>)
    ensures r.Some? ==> r.value < |es| && Matches(es[r.value], kind, id)
    ensures r.Some? ==> forall j :: 0 <= j < r.value ==> !Matches(es[j], kind, id)
    ensures r.None? ==> forall j :: 0 <= j < |es| ==> !Matches(es[j], kind, id)
  {
    if es == [] then None
    else if Matches(es[0], kind, id) then Some(0)
    else
      var r := First(es[1..], kind, id);
      assert forall j :: 0 < j < |es| ==> es[1..][j - 1] == es[j];
      if r.Some? then Some(r.value + 1) else None
  }

  /** The longest prefix wins, and among equally long ones the first. */
  ghost predicate BestRewrite(es: seq<Entry>, sys: string, i: nat)
  {
    && i < |es| && Rewrites(es[i], sys)
    && (forall j :: 0 <= j < |es| && Rewrites(es[j], sys) ==> |es[j].name| <= |es[i].name|)
    && (forall j :: 0 <= j < i && Rewrites(es[j], sys) ==> |es[j].name| < |es[i].name|)
  }

  lemma BestRewriteUnique(es: seq<Entry>, sys: string, i: nat, j: nat)
    requires BestRewrite(es, sys, i) && BestRewrite(es, sys, j)
    ensures i == j
  {
  }

  /** The best rewrite rule of a file. */
  ghost function Best(es: seq<Entry>, sys: string): (r: Option<nat>)
    ensures r.Some? ==> BestRewrite(es, sys, r.value)
    ensures r.None? ==> forall i: nat :: !BestRewrite(es, sys, i)
  {
    if exists i: nat :: BestRewrite(es, sys, i) then
      var i: nat :| BestRewrite(es, sys, i);
      Some(i)
    else None
  }

  lemma BestIs(es: seq<Entry>, sys: string, i: nat)
    requires BestRewrite(es, sys, i)
    ensures Best(es, sys) == Some(i)
  {
    BestRewriteUnique(es, sys, i, Best(es, sys).value);
  }

  // ----- the lookup

  /** One catalog file, for identifiers that are no URNs. */
  ghost function Lookup(store: Store, rank: map<string, nat>, broken: Broken, url: string,
                        pub: Option<string>, sys: Option<string>): Answer
    requires Acyclic(store, rank) && url in store
    decreases rank[url], 2, 0
  {
    var bySystem := if sys.Some? then SystemStep(store, rank, broken, url, sys.value) else None;
    if bySystem.Some? then bySystem.value
    else
      var byPublic := if pub.Some? then PublicStep(store, rank, broken, url, pub.value) else None;
      if byPublic.Some? then byPublic.value
      else if pub.None? && sys.None? then NotFound
      else Next(store, rank, broken, url, pub, sys, 0)
  }

  /** An exact system entry, else the best rewrite rule, else the system delegates. */
  ghost function SystemStep(store: Store, rank: map<string, nat>, broken: Broken, url: string,
      sys: string): (r: Option<Answer>)
    requires Acyclic(store, rank) && url in store
    ensures r != Some(NotFound)
    decreases rank[url], 1, 0
  {
    var es := store[url];
    if First(es, System, sys).Some? then Some(Found(es[First(es, System, sys).value].url))
    else if Best(es, sys).Some? then
      var i := Best(es, sys).value;
      Some(Found(es[i].url + sys[|es[i].name|..]))
    else if AnyActive(url, es, broken, OfSystem(sys)) then
      Some(CutOff(Delegated(store, rank, broken, url, OfSystem(sys), 0), url, OfSystem(sys)))
    else None
  }

  /** An exact public entry, else the public delegates. */
  ghost function PublicStep(store: Store, rank: map<string, nat>, broken: Broken, url: string,
      pub: string): (r: Option<Answer>)
    requires Acyclic(store, rank) && url in store
    ensures r != Some(NotFound)
    decreases rank[url], 1, 0
  {
    var es := store[url];
    if First(es, Public, pub).Some? then Some(Found(es[First(es, Public, pub).value].url))
    else if AnyActive(url, es, broken, OfPublic(pub)) then
      Some(CutOff(Delegated(store, rank, broken, url, OfPublic(pub), 0), url, OfPublic(pub)))
    else None
  }

  /** Delegation that found nothing still ends the lookup. */
  function CutOff(a: Answer, url: string, t: Topic): Answer { if a.NotFound? then Cut(url, t) else a }

  /** The first answer among the applicable delegates from `i` on, in list order. */
  ghost function Delegated(store: Store, rank: map<string, nat>, broken: Broken, url: string, t: Topic, i: nat): Answer
    requires Acyclic(store, rank) && url in store && i <= |store[url]|
    decreases rank[url], 0, |store[url]| - i
  {
    if i == |store[url]| then NotFound
    else
      var e := store[url][i];
      var a := if Active(url, i, e, broken, t) && Loads(store, e.url) then
                 assert rank[e.url] < rank[url];
                 Lookup(store, rank, broken, e.url, PubOf(t), SysOf(t))
               else NotFound;
      if a.NotFound? then Delegated(store, rank, broken, url, t, i + 1) else a
  }

  /** The first answer among the next catalogs from `i` on, in list order. */
  ghost function Next(store: Store, rank: map<string, nat>, broken: Broken, url: string,
                      pub: Option<string>, sys: Option<string>, i: nat): Answer
    requires Acyclic(store, rank) && url in store && i <= |store[url]|
    decreases rank[url], 0, |store[url]| - i
  {
    if i == |store[url]| then NotFound
    else
      var e := store[url][i];
      var a := if e.kind.NextCatalog? && Loads(store, e.url) then
                 assert rank[e.url] < rank[url];
                 Lookup(store, rank, broken, e.url, pub, sys)
               else NotFound;
      if a.NotFound? then Next(store, rank, broken, url, pub, sys, i + 1) else a
  }

  /** A list of top-level catalogs, for any identifiers: URNs are unwrapped first. */
  ghost function LookupList(store: Store, rank: map<string, nat>, broken: Broken, list: seq<Entry>,
                            pub: Option<string>, sys: Option<string>): Answer
    requires Acyclic(store, rank)
  {
    var (p, s) := Ids(pub, sys);
    FirstAnswer(store, rank, broken, list, p, s)
  }

  ghost function FirstAnswer(store: Store, rank: map<string, nat>, broken: Broken, list: seq<Entry>,
                             pub: Option<string>, sys: Option<string>): Answer
    requires Acyclic(store, rank)
  {
    if list == [] then NotFound
    else
      var a := if list[0].kind.Catalog? && Loads(store, list[0].url) then
                 Lookup(store, rank, broken, list[0].url, pub, sys)
               else NotFound;
      if a.NotFound? then FirstAnswer(store, rank, broken, list[1..], pub, sys) else a
  }

  // ----- only broken delegates within reach matter

  /** The two sets say the same about the delegate entries of all files of rank below `r`. */
  ghost predicate Agree(store: Store, rank: map<string, nat>, r: nat, b: Broken, c: Broken)
    requires Acyclic(store, rank)
  {
    forall u, i | u in store && rank[u] < r && 0 <= i < |store[u]| ::
      IsDelegate(store[u][i]) ==> ((u, i) in b <==> (u, i) in c)
  }

  lemma {:induction false} LookupAgree(store: Store, rank: map<string, nat>, b: Broken, c: Broken, url: string,
                                       pub: Option<string>, sys: Option<string>)
    requires Acyclic(store, rank) && url in store && Agree(store, rank, rank[url] + 1, b, c)
    ensures Lookup(store, rank, b, url, pub, sys) == Lookup(store, rank, c, url, pub, sys)
    decreases rank[url], 2, 0
  {
    if sys.Some? { DelegatedAgree(store, rank, b, c, url, OfSystem(sys.value), 0); }
    if pub.Some? { DelegatedAgree(store, rank, b, c, url, OfPublic(pub.value), 0); }
    NextAgree(store, rank, b, c, url, pub, sys, 0);
    forall i, t | 0 <= i < |store[url]|
      ensures Active(url, i, store[url][i], b, t) <==> Active(url, i, store[url][i], c, t)
    {
    }
  }

  lemma {:induction false} DelegatedAgree(store: Store, rank: map<string, nat>, b: Broken, c: Broken, url: string,
                                          t: Topic, i: nat)
    requires Acyclic(store, rank) && url in store && i <= |store[url]| && Agree(store, rank, rank[url] + 1, b, c)
    ensures Delegated(store, rank, b, url, t, i) == Delegated(store, rank, c, url, t, i)
    decreases rank[url], 0, |store[url]| - i
  {
    if i < |store[url]| {
      var e := store[url][i];
      if Active(url, i, e, b, t) && Loads(store, e.url) {
        assert rank[e.url] < rank[url];
        LookupAgree(store, rank, b, c, e.url, PubOf(t), SysOf(t));
      }
      DelegatedAgree(store, rank, b, c, url, t, i + 1);
    }
  }

  lemma {:induction false} NextAgree(store: Store, rank: map<string, nat>, b: Broken, c: Broken, url: string,
                                     pub: Option<string>, sys: Option<string>, i: nat)
    requires Acyclic(store, rank) && url in store && i <= |store[url]| && Agree(store, rank, rank[url] + 1, b, c)
    ensures Next(store, rank, b, url, pub, sys, i) == Next(store, rank, c, url, pub, sys, i)
    decreases rank[url], 0, |store[url]| - i
  {
    if i < |store[url]| {
      var e := store[url][i];
      if e.kind.NextCatalog? && Loads(store, e.url) {
        assert rank[e.url] < rank[url];
        LookupAgree(store, rank, b, c, e.url, pub, sys);
      }
      NextAgree(store, rank, b, c, url, pub, sys, i + 1);
    }
  }

  /** Without identifiers there is nothing to find. */
  lemma {:induction false} NoIdentifiers(store: Store, rank: map<string, nat>, broken: Broken, list: seq<Entry>)
    requires Acyclic(store, rank)
    ensures FirstAnswer(store, rank, broken, list, None, None) == NotFound
    decreases |list|
  {
    if list != [] { NoIdentifiers(store, rank, broken, list[1..]); }
  }
}
