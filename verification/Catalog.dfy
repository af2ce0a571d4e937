/** catalog.c: the two mutually recursive resolvers over a store of catalog files that may refer to
    each other in cycles, with the per-file depth counters that stop them.  Each method does what the
    function of `CatalogRun` for it says. */
module CatalogResolver {
  import opened Strings
  import opened PublicId
  import opened CatalogSpec
  import opened CatalogRun
  import opened CatalogProps
  import Leaks = CatalogLeaks
  import Twice = CatalogTwice

  /** No URN, and the public identifier is normal. */
  predicate Settled(pub: Option<string>, sys: Option<string>)
  {
    Cost(pub) == 0 && Cost(sys) == 0 && NormalPublic(pub) == pub
  }

  /** What a pass over the entries found for a system identifier. */
  datatype SystemPass = SystemPass(exact: Option<nat>, rewrite: Option<nat>, haveDelegate: nat, haveNext: nat)

  /** One of the first `n` entries is a next catalog that has not been marked as broken. */
  ghost predicate HasNext(store: Store, broken: Broken, url: string, n: nat)
    requires url in store && n <= |store[url]|
  {
    exists i :: 0 <= i < n && LiveNext(store, broken, url, i)
  }

  predicate LiveNext(store: Store, broken: Broken, url: string, i: nat)
    requires url in store && i < |store[url]|
  {
    store[url][i].kind.NextCatalog? && (url, i) !in broken
  }

  lemma HasNextStep(store: Store, broken: Broken, url: string, i: nat)
    requires url in store && i < |store[url]|
    ensures HasNext(store, broken, url, i + 1) <==> HasNext(store, broken, url, i) || LiveNext(store, broken, url, i)
  {
  }

  /** `rewrite` is the best rewrite rule among the first `n` entries. */
  ghost predicate RewriteSoFar(es: seq<Entry>, sys: string, n: nat, rewrite: Option<nat>)
    requires n <= |es|
  {
    match rewrite
    case None => forall j :: 0 <= j < n ==> !Rewrites(es[j], sys)
    case Some(i) =>
      && i < n && Rewrites(es[i], sys)
      && (forall j :: 0 <= j < n && Rewrites(es[j], sys) ==> |es[j].name| <= |es[i].name|)
      && (forall j :: 0 <= j < i && Rewrites(es[j], sys) ==> |es[j].name| < |es[i].name|)
  }

  lemma AnyActiveStep(url: string, es: seq<Entry>, i: nat, broken: Broken, t: Topic)
    requires i < |es|
    ensures AnyActive(url, es[..i + 1], broken, t) <==>
        AnyActive(url, es[..i], broken, t) || Active(url, i, es[i], broken, t)
  {
    assert forall j :: 0 <= j < i ==> es[..i + 1][j] == es[..i][j];
    assert es[..i + 1][i] == es[i];
    if AnyActive(url, es[..i], broken, t) {
      var j :| 0 <= j < i && Active(url, j, es[..i][j], broken, t);
      assert Active(url, j, es[..i + 1][j], broken, t);
    }
  }

  /** Without a live next catalog the loop over them does nothing. */
  lemma {:induction false} NothingNext(store: Store, d: Depths, b: Broken, url: string,
                                       pub: Option<string>, sys: Option<string>, i: nat)
    requires d.Keys == store.Keys && url in store && i <= |store[url]| && !HasNext(store, b, url, |store[url]|)
    ensures RunNext(store, d, b, url, pub, sys, i) == (Idle(d, b), false)
    decreases |store[url]| - i
  {
    if i < |store[url]| {
      assert !LiveNext(store, b, url, i);
      NothingNext(store, d, b, url, pub, sys, i + 1);
    }
  }

  /** One catalog, asked for identifiers that are settled. */
  lemma SingleList(store: Store, d: Depths, b: Broken, url: string, i: nat, pub: Option<string>, sys: Option<string>)
    requires d.Keys == store.Keys && url in store && i < |store[url]| && IsReference(store[url][i])
    requires store[url][i].url in store && Settled(pub, sys) && (pub.Some? || sys.Some?)
    ensures var o := RunList(store, d, b, [Entry(Catalog, "", store[url][i].url, false)], pub, sys);
            o == RunAsk(store, d, b, url, i, pub, sys)
  {
    var u := store[url][i].url;
    var list := [Entry(Catalog, "", u, false)];
    assert list[1..] == [] && list[0].url == u;
    assert Ids(pub, sys) == (pub, sys);
    assert RunList(store, d, b, list, pub, sys) == RunWalk(store, d, b, list, pub, sys);
    if Loads(store, u) {
      var o := RunResolve(store, d, b, u, pub, sys);
      assert RunWalk(store, o.depth, o.broken, list[1..], pub, sys) == Idle(o.depth, o.broken);
      assert RunWalk(store, d, b, list, pub, sys) == o;
    } else {
      assert RunWalk(store, d, b, list[1..], pub, sys) == Idle(d, b);
    }
  }

  class Resolver {
    const store: Store
    var depth: Depths
    var broken: Broken

    constructor (store: Store)
      ensures Valid() && this.store == store
      ensures (forall u :: u in store ==> depth[u] == 0) && broken == {}
    {
      this.store := store;
      depth := map u | u in store :: 0;
      broken := {};
    }

    ghost predicate Valid()
      reads this
    {
      depth.Keys == store.Keys && AllMissing(store, broken)
    }

    /** The answer, the counters and the marks are those of `o`. */
    ghost predicate Did(answer: Reply, o: Outcome)
      reads this
    {
      answer == ReplyOf(o.answer) && depth == o.depth && broken == o.broken
    }

    /** The pass over the entries when a system identifier is given: stops at an exact match. */
    method ScanSystem(url: string, sys: string) returns (p: SystemPass)
      requires Valid() && url in store
      ensures p.exact == First(store[url], System, sys)
      ensures p.exact.None? ==> RewriteSoFar(store[url], sys, |store[url]|, p.rewrite)
      ensures p.exact.None? ==> (p.haveDelegate > 0 <==> AnyActive(url, store[url], broken, OfSystem(sys)))
      ensures p.exact.None? ==> (p.haveNext > 0 <==> HasNext(store, broken, url, |store[url]|))
    {
      var es := store[url];
      var rewrite: Option<nat>, lenrewrite, haveDelegate, haveNext := None, 0, 0, 0;
      var i := 0;
      while i < |es|
        invariant 0 <= i <= |es|
        invariant forall j :: 0 <= j < i ==> !Matches(es[j], System, sys)
        invariant RewriteSoFar(es, sys, i, rewrite) &&
            lenrewrite == if rewrite.Some? then |es[rewrite.value].name| else 0
        invariant haveDelegate > 0 <==> AnyActive(url, es[..i], broken, OfSystem(sys))
        invariant haveNext > 0 <==> HasNext(store, broken, url, i)
      {
        var cur := es[i];
        AnyActiveStep(url, es, i, broken, OfSystem(sys));
        HasNextStep(store, broken, url, i);
        if (url, i) !in broken {
          match cur.kind {
            case System =>
              if cur.name == sys {
                return SystemPass(Some(i), None, 0, 0);
              }
            case RewriteSystem =>
              var len := |cur.name|;
              if len > lenrewrite && StartsWith(sys, cur.name) {
                lenrewrite := len;
                rewrite := Some(i);
              }
            case DelegateSystem =>
              if StartsWith(sys, cur.name) {
                haveDelegate := haveDelegate + 1;
              }
            case NextCatalog =>
              haveNext := haveNext + 1;
            case _ =>
          }
        }
        i := i + 1;
      }
      assert es[..i] == es;
      p := SystemPass(None, rewrite, haveDelegate, haveNext);
    }

    /** The pass over the entries when only a public identifier is left to try. */
    method ScanPublic(url: string, pub: string, sys: Option<string>)
        returns (exact: Option<nat>, haveDelegate: nat, haveNext: nat)
      requires Valid() && url in store
      ensures exact == First(store[url], Public, pub)
      ensures exact.None? ==> (haveDelegate > 0 <==> AnyActive(url, store[url], broken, OfPublic(pub)))
      ensures exact.None? ==> (haveNext > 0 <==> sys.None? && HasNext(store, broken, url, |store[url]|))
    {
      var es := store[url];
      exact, haveDelegate, haveNext := None, 0, 0;
      var i := 0;
      while i < |es|
        invariant 0 <= i <= |es|
        invariant exact.None? && forall j :: 0 <= j < i ==> !Matches(es[j], Public, pub)
        invariant haveDelegate > 0 <==> AnyActive(url, es[..i], broken, OfPublic(pub))
        invariant haveNext > 0 <==> sys.None? && HasNext(store, broken, url, i)
      {
        var cur := es[i];
        AnyActiveStep(url, es, i, broken, OfPublic(pub));
        HasNextStep(store, broken, url, i);
        if (url, i) !in broken {
          match cur.kind {
            case Public =>
              if cur.name == pub {
                return Some(i), 0, 0;
              }
            case DelegatePublic =>
              if StartsWith(pub, cur.name) && cur.preferPublic {
                haveDelegate := haveDelegate + 1;
              }
            case NextCatalog =>
              if sys.None? {
                haveNext := haveNext + 1;
              }
            case _ =>
          }
        }
        i := i + 1;
      }
      assert es[..i] == es;
    }

    /** xmlFetchXMLCatalogFile for an entry: whether its file is there; a failure marks the entry. */
    method Fetch(url: string, i: nat) returns (loaded: bool)
      requires Valid() && url in store && i < |store[url]| && IsReference(store[url][i])
      modifies `broken
      ensures Valid()
      ensures loaded <==> store[url][i].url in store
      ensures broken == if loaded then old(broken) else old(broken) + {(url, i)}
    {
      loaded := store[url][i].url in store;
      if !loaded {
        broken := broken + {(url, i)};
      }
    }

    /** xmlCatalogXMLResolve: on stores without cycles the answer is the declarative one. */
    method Resolve(url: string, pub: Option<string>, sys: Option<string>) returns (answer: Reply)
      requires Valid() && url in store && Settled(pub, sys)
      modifies `depth, `broken
      ensures Valid() && Did(answer, RunResolve(store, old(depth), old(broken), url, pub, sys))
      ensures forall rank :: Acyclic(store, rank) && Calm(store, rank, rank[url] + 1, old(depth)) ==>
                answer == ReplyOf(Lookup(store, rank, old(broken), url, pub, sys)) && depth == old(depth)
      decreases Free(store, depth), 1, 1
    {
      forall rank | Acyclic(store, rank) && Calm(store, rank, rank[url] + 1, depth)
        ensures var o := RunResolve(store, depth, broken, url, pub, sys);
                o.answer == Lookup(store, rank, broken, url, pub, sys) && o.depth == depth
      {
        ResolveRefines(store, rank, depth, broken, url, pub, sys);
      }
      if depth[url] > MAX_CATAL_DEPTH {
        return Nothing;
      }
      depth := depth[url := depth[url] + 1];
      FreeShrinks(store, old(depth), depth);
      answer := ResolveAndLeave(url, pub, sys, old(depth));
    }

    /** The steps, and the counter dropped again unless the way out forgets to. */
    method ResolveAndLeave(url: string, pub: Option<string>, sys: Option<string>, ghost d: Depths)
        returns (answer: Reply)
      requires Valid() && url in store && Settled(pub, sys)
      requires d.Keys == store.Keys && d[url] <= MAX_CATAL_DEPTH && depth == d[url := d[url] + 1]
      modifies `depth, `broken
      ensures Valid() && Did(answer, RunResolve(store, d, old(broken), url, pub, sys))
      decreases Free(store, depth), 7, 0
    {
      var stuck;
      answer, stuck := ResolveEntered(url, pub, sys);
      if !stuck {
        depth := depth[url := depth[url] - 1];
      }
    }

    /** The steps of section 7.1.2, between bumping the counter and dropping it again; `stuck` when
        the way out leaves the counter as it is. */
    method ResolveEntered(url: string, pub: Option<string>, sys: Option<string>) returns (answer: Reply, stuck: bool)
      requires Valid() && url in store && Settled(pub, sys)
      modifies `depth, `broken
      ensures Valid()
      ensures var (o, s) := RunEntered(store, old(depth), old(broken), url, pub, sys);
              Did(answer, o) && stuck == s
      decreases Free(store, depth), 6, 0
    {
      var done, haveNext := false, 0;
      answer, stuck := Nothing, false;
      if sys.Some? {
        done, answer, haveNext := SystemPhase(url, sys.value);
      }
      if !done && pub.Some? {
        var more;
        done, answer, more := PublicPhase(url, pub.value, sys);
        haveNext := haveNext + more;
      }
      if !done {
        if haveNext > 0 {
          answer, stuck := TryNext(url, pub, sys);
        } else if pub.Some? || sys.Some? {
          NothingNext(store, depth, broken, url, pub, sys, 0);
        }
      }
    }

    /** Steps 2 to 4 of section 7.1.2: exact system entry, rewrite rules, system delegates. */
    method SystemPhase(url: string, sys: string) returns (done: bool, answer: Reply, haveNext: nat)
      requires Valid() && url in store && Settled(None, Some(sys))
      modifies `depth, `broken
      ensures Valid()
      ensures done == RunSystem(store, old(depth), old(broken), url, sys).Some?
      ensures done ==> Did(answer, RunSystem(store, old(depth), old(broken), url, sys).value)
      ensures !done ==> answer.Nothing? && depth == old(depth) && broken == old(broken)
      ensures !done ==> (haveNext > 0 <==> HasNext(store, broken, url, |store[url]|))
      decreases Free(store, depth), 5, 0
    {
      var pass := ScanSystem(url, sys);
      answer, haveNext := Nothing, pass.haveNext;
      done := true;
      if pass.exact.Some? {
        answer := Uri(store[url][pass.exact.value].url);
      } else if pass.rewrite.Some? {
        var cur := store[url][pass.rewrite.value];
        BestIs(store[url], sys, pass.rewrite.value);
        answer := Uri(cur.url + sys[|cur.name|..]);
      } else if pass.haveDelegate > 0 {
        answer := TryDelegates(url, OfSystem(sys));
        if answer.Nothing? {
          answer := Break;
        }
      } else {
        done := false;
      }
    }

    /** Steps 5 and 6: exact public entry, public delegates. */
    method PublicPhase(url: string, pub: string, sys: Option<string>)
        returns (done: bool, answer: Reply, haveNext: nat)
      requires Valid() && url in store && Settled(Some(pub), None)
      modifies `depth, `broken
      ensures Valid()
      ensures done == RunPublic(store, old(depth), old(broken), url, pub).Some?
      ensures done ==> Did(answer, RunPublic(store, old(depth), old(broken), url, pub).value)
      ensures !done ==> answer.Nothing? && depth == old(depth) && broken == old(broken)
      ensures !done ==> (haveNext > 0 <==> sys.None? && HasNext(store, broken, url, |store[url]|))
      decreases Free(store, depth), 5, 0
    {
      var exact, haveDelegate;
      exact, haveDelegate, haveNext := ScanPublic(url, pub, sys);
      answer := Nothing;
      done := true;
      if exact.Some? {
        answer := Uri(store[url][exact.value].url);
      } else if haveDelegate > 0 {
        answer := TryDelegates(url, OfPublic(pub));
        if answer.Nothing? {
          answer := Break;
        }
      } else {
        done := false;
      }
    }

    /** Load the file an entry refers to and look the identifiers up in it. */
    method AskReference(url: string, i: nat, pub: Option<string>, sys: Option<string>)
      returns (answer: Reply, loaded: bool)
      requires Valid() && url in store && i < |store[url]| && IsReference(store[url][i])
      requires Settled(pub, sys) && (pub.Some? || sys.Some?)
      modifies `depth, `broken
      ensures Valid() && loaded == (store[url][i].url in store)
      ensures Did(answer, RunAsk(store, old(depth), old(broken), url, i, pub, sys))
      decreases Free(store, depth), 2, 0
    {
      answer := Nothing;
      loaded := Fetch(url, i);
      if loaded {
        SingleList(store, depth, broken, url, i, pub, sys);
        answer := ListResolve([Entry(Catalog, "", store[url][i].url, false)], pub, sys);
      }
    }

    /** Asks the delegates that apply, skipping files already tried; the table of those is limited. */
    method TryDelegates(url: string, t: Topic) returns (answer: Reply)
      requires Valid() && url in store && Settled(PubOf(t), SysOf(t))
      modifies `depth, `broken
      ensures Valid() && Did(answer, RunDelegates(store, old(depth), old(broken), url, t, 0, []))
      decreases Free(store, depth), 4, 0
    {
      var delegates := new string[MAX_DELEGATE](_ => "");
      var nbList: nat, i := 0, 0;
      answer := Nothing;
      ghost var all := RunDelegates(store, depth, broken, url, t, 0, []);
      assert delegates[..nbList] == [];
      while i < |store[url]|
        invariant 0 <= i <= |store[url]| && nbList <= delegates.Length && answer.Nothing? && Valid()
        invariant Deeper(store, old(depth), depth)
        invariant Same(RunDelegates(store, depth, broken, url, t, i, delegates[..nbList]), all)
      {
        FreeShrinks(store, old(depth), depth);
        answer, nbList := DelegateTurn(url, t, i, delegates, nbList);
        if !answer.Nothing? {
          return;
        }
        i := i + 1;
      }
    }

    /** One turn of the loop over the entries. */
    method DelegateTurn(url: string, t: Topic, i: nat, delegates: array<string>, nbList: nat)
      returns (answer: Reply, n: nat)
      requires Valid() && url in store && i < |store[url]| && Settled(PubOf(t), SysOf(t))
      requires delegates.Length == MAX_DELEGATE && nbList <= delegates.Length
      modifies `depth, `broken, delegates
      ensures Valid() && n <= delegates.Length && Deeper(store, old(depth), depth)
      ensures var all := RunDelegates(store, old(depth), old(broken), url, t, i, old(delegates[..nbList]));
              if answer.Nothing? then Same(RunDelegates(store, depth, broken, url, t, i + 1, delegates[..n]), all)
              else Did(answer, all)
      decreases Free(store, depth), 3, 0
    {
      var cur := store[url][i];
      answer, n := Nothing, nbList;
      if Active(url, i, cur, broken, t) {
        var known := Tried(delegates, nbList, cur.url);
        if !known {
          n := Record(delegates, nbList, cur.url);
          var loaded;
          answer, loaded := AskReference(url, i, PubOf(t), SysOf(t));
        }
      }
    }

    /** Once the table is full, further files are asked without being remembered. */
    method Record(delegates: array<string>, nbList: nat, url: string) returns (n: nat)
      requires nbList <= delegates.Length == MAX_DELEGATE
      modifies delegates
      ensures n == if nbList < delegates.Length then nbList + 1 else nbList
      ensures n <= delegates.Length && delegates[..n] == Recorded(old(delegates[..nbList]), url)
    {
      n := nbList;
      if nbList < delegates.Length {
        delegates[nbList] := url;
        n := nbList + 1;
      }
    }

    method Tried(delegates: array<string>, nbList: nat, url: string) returns (known: bool)
      requires nbList <= delegates.Length
      ensures known <==> url in delegates[..nbList]
    {
      for i := 0 to nbList
        invariant url !in delegates[..i]
      {
        if url == delegates[i] {
          return true;
        }
      }
      known := false;
    }

    /** Asks the next catalogs; `stuck` when the recursion guard has struck in this very file. */
    method TryNext(url: string, pub: Option<string>, sys: Option<string>) returns (answer: Reply, stuck: bool)
      requires Valid() && url in store && Settled(pub, sys) && (pub.Some? || sys.Some?)
      modifies `depth, `broken
      ensures Valid()
      ensures var (o, s) := RunNext(store, old(depth), old(broken), url, pub, sys, 0);
              Did(answer, o) && stuck == s
      decreases Free(store, depth), 4, 0
    {
      var i := 0;
      ghost var all := RunNext(store, depth, broken, url, pub, sys, 0);
      while i < |store[url]|
        invariant 0 <= i <= |store[url]| && Valid() && Deeper(store, old(depth), depth)
        invariant var now := RunNext(store, depth, broken, url, pub, sys, i);
                  Same(now.0, all.0) && now.1 == all.1
      {
        if store[url][i].kind.NextCatalog? && (url, i) !in broken {
          FreeShrinks(store, old(depth), depth);
          var loaded;
          answer, loaded := AskReference(url, i, pub, sys);
          if !answer.Nothing? {
            return answer, false;
          } else if loaded && depth[url] > MAX_CATAL_DEPTH {
            return Nothing, true;
          }
        }
        i := i + 1;
      }
      answer, stuck := Nothing, false;
    }

    /** A question asked of a list of catalogs: on stores without cycles it gets the declarative answer,
        and the counters stand where they stood. */
    method Ask(list: seq<Entry>, pub: Option<string>, sys: Option<string>) returns (answer: Reply)
      requires Valid()
      modifies `depth, `broken
      ensures Valid() && Did(answer, RunList(store, old(depth), old(broken), list, pub, sys))
      ensures forall rank, r ::
                Acyclic(store, rank) && Below(store, rank, r, list) && Calm(store, rank, r, old(depth)) ==>
                  answer == ReplyOf(LookupList(store, rank, old(broken), list, pub, sys)) && depth == old(depth)
    {
      forall rank, r | Acyclic(store, rank) && Below(store, rank, r, list) && Calm(store, rank, r, depth)
        ensures var o := RunList(store, depth, broken, list, pub, sys);
                o.answer == LookupList(store, rank, broken, list, pub, sys) && o.depth == depth
      {
        ListRefines(store, rank, r, depth, broken, list, pub, sys);
      }
      answer := ListResolve(list, pub, sys);
    }

    /** xmlCatalogListXMLResolve */
    method ListResolve(list: seq<Entry>, pub: Option<string>, sys: Option<string>) returns (answer: Reply)
      requires Valid()
      modifies `depth, `broken
      ensures Valid() && Did(answer, RunList(store, old(depth), old(broken), list, pub, sys))
      decreases Free(store, depth), 1, 4 + Measure(pub, sys)
    {
      if pub.None? && sys.None? {
        return Nothing;
      }
      var pubID := pub;
      if pub.Some? {
        var normid := NormalizePublic(pub.value);
        if normid.Some? {
          pubID := if normid.value != "" then normid else None;
        }
      }
      NormalPublicAgain(pub);
      if pubID.Some? && IsUrn(pubID.value) {
        CostOfUnwrapped(pubID.value);
        var urnID := UnWrapURN(pubID.value);
        answer := ListResolve(list, urnID, sys);
        return;
      }
      if sys.Some? && IsUrn(sys.value) {
        CostOfUnwrapped(sys.value);
        var urnID := UnWrapURN(sys.value);
        if pubID.None? {
          answer := ListResolve(list, urnID, None);
        } else if pubID == urnID {
          answer := ListResolve(list, pubID, None);
        } else {
          answer := ListResolve(list, pubID, urnID);
        }
        return;
      }
      answer := WalkList(list, pubID, sys);
    }

    /** Before catalog `i` of the list, or stopped there; `all` is the outcome of the whole loop. */
    ghost predicate Walking(list: seq<Entry>, i: nat, pub: Option<string>, sys: Option<string>, stop: bool,
        answer: Reply, all: Outcome)
      reads this
    {
      && Valid() && i <= |list| && Settled(pub, sys)
      && if stop then Did(answer, all)
         else answer.Nothing? && Same(RunWalk(store, depth, broken, list[i..], pub, sys), all)
    }

    /** One catalog of the list; `stop` ends the loop. */
    method WalkTurn(list: seq<Entry>, i: nat, pub: Option<string>, sys: Option<string>, ghost all: Outcome)
        returns (stop: bool, answer: Reply)
      requires i < |list| && Walking(list, i, pub, sys, false, Nothing, all)
      modifies `depth, `broken
      ensures Walking(list, i + 1, pub, sys, stop, answer, all) && Deeper(store, old(depth), depth)
      decreases Free(store, depth), 1, 2
    {
      stop, answer := false, Nothing;
      assert list[i..][1..] == list[i + 1..] && list[i..][0] == list[i];
      var url := list[i].url;
      if list[i].kind.Catalog? && Loads(store, url) {
        answer := Resolve(url, pub, sys);
        stop := !answer.Nothing? || depth[url] > MAX_CATAL_DEPTH;
      }
    }

    lemma WalkBegins(list: seq<Entry>, pub: Option<string>, sys: Option<string>)
      requires Valid() && Settled(pub, sys)
      ensures Walking(list, 0, pub, sys, false, Nothing, RunWalk(store, depth, broken, list, pub, sys))
    {
      assert list[0..] == list;
    }

    lemma WalkEnds(list: seq<Entry>, pub: Option<string>, sys: Option<string>, stop: bool, answer: Reply, all: Outcome)
      requires Walking(list, |list|, pub, sys, stop, answer, all)
      ensures Did(answer, all)
    {
      assert list[|list|..] == [];
    }

    /** The loop over the list, once the identifiers are settled. */
    method WalkList(list: seq<Entry>, pub: Option<string>, sys: Option<string>) returns (answer: Reply)
      requires Valid() && Settled(pub, sys)
      modifies `depth, `broken
      ensures Valid() && Did(answer, RunWalk(store, old(depth), old(broken), list, pub, sys))
      decreases Free(store, depth), 1, 3
    {
      answer := Nothing;
      var i, stop := 0, false;
      ghost var all := RunWalk(store, depth, broken, list, pub, sys);
      WalkBegins(list, pub, sys);
      while i < |list| && !stop
        invariant Walking(list, i, pub, sys, stop, answer, all) && Deeper(store, old(depth), depth)
      {
        FreeShrinks(store, old(depth), depth);
        stop, answer := WalkTurn(list, i, pub, sys, all);
        i := i + 1;
      }
      if !stop { WalkEnds(list, pub, sys, stop, answer, all); }
    }
  }

  // ----- two runs

  const LOOP: Store := map["a" := [Entry(NextCatalog, "", "a", false)]]

  /** From fresh counters, a file that continues with itself is left with its counter beyond the limit,
      and no later lookup looks at it. */
  method AskLoop(id: string) returns (answer: Reply, counter: nat, later: Reply)
    requires !IsUrn(id)
    ensures answer == Nothing && counter == 51 && later == Nothing
  {
    var r := new Resolver(LOOP);
    Leaks.SelfLoop(LOOP, r.depth, r.broken, "a", None, Some(id));
    answer := r.Resolve("a", None, Some(id));
    counter := r.depth["a"];
    later := r.Resolve("a", None, Some(id));
  }

  /** The same question to the same catalogs, one answer after the other. */
  method AskTwice() returns (first: Reply, second: Reply)
    ensures first.Break? && second == Uri("y")
  {
    var r := new Resolver(Twice.TWO_FILES);
    Twice.TwoFilesAcyclic();
    Twice.TwoAnswers(Twice.TWO_FILES, Twice.RANKS, r.depth, "a", "x");
    first := r.Resolve("a", None, Some("x"));
    Twice.Known(Twice.TWO_FILES, Twice.RANKS, r.broken, "b", "x");
    second := r.Resolve("a", None, Some("x"));
  }
}
