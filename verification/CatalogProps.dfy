/** What runs of the catalog resolvers come to: on stores without cycles the declarative lookup, and on
    all stores an exact account of the counters. */
module CatalogProps {
  import opened Strings
  import opened PublicId
  import opened CatalogSpec
  import opened CatalogRun

  // ----- stores without cycles

  /** All counters of files of rank below `r` are far enough from the limit. */
  ghost predicate Calm(store: Store, rank: map<string, nat>, r: nat, depth: Depths)
    requires Acyclic(store, rank) && depth.Keys == store.Keys
  {
    forall u :: u in store && rank[u] < r ==> depth[u] < MAX_CATAL_DEPTH
  }

  /** All loadable catalogs of the list have rank below `r`. */
  ghost predicate Below(store: Store, rank: map<string, nat>, r: nat, list: seq<Entry>)
    requires Acyclic(store, rank)
  {
    forall e :: e in list && e.url in store ==> rank[e.url] < r
  }

  /** Only entries of files of rank below `r` are new in `c`. */
  ghost predicate Grown(store: Store, rank: map<string, nat>, r: nat, b: Broken, c: Broken)
    requires Acyclic(store, rank)
  {
    b <= c && forall x :: x in c && x !in b ==> x.0 in store && rank[x.0] < r
  }

  /** ... or the entry at `i` of `url` itself. */
  ghost predicate GrownBy(store: Store, rank: map<string, nat>, url: string, i: nat, b: Broken, c: Broken)
    requires Acyclic(store, rank) && url in store
  {
    b <= c && forall x :: x in c && x !in b ==> x == (url, i) || (x.0 in store && rank[x.0] < rank[url])
  }

  /** What the file an entry refers to answers. */
  ghost function ReferenceAnswer(store: Store, rank: map<string, nat>, broken: Broken, url: string, e: Entry,
      pub: Option<string>, sys: Option<string>): Answer
    requires Acyclic(store, rank) && url in store
  {
    if Loads(store, e.url) then Lookup(store, rank, broken, e.url, pub, sys) else NotFound
  }

  // ----- the loop over delegates

  /** The first `i` entries gave no answer, nor did any file in `tried`. */
  ghost predicate Delegating(store: Store, rank: map<string, nat>, url: string, t: Topic, i: nat, tried: seq<string>,
      b: Broken, c: Broken)
    requires Acyclic(store, rank) && url in store && i <= |store[url]|
  {
    && Grown(store, rank, rank[url] + 1, b, c) && Agree(store, rank, rank[url], b, c)
    && (forall j :: i <= j ==> ((url, j) in b <==> (url, j) in c))
    && Delegated(store, rank, b, url, t, 0) == Delegated(store, rank, b, url, t, i)
    && (forall u :: u in tried && Loads(store, u) ==> Lookup(store, rank, b, u, PubOf(t), SysOf(t)).NotFound?)
  }

  /** Skipping an entry that does not apply, or whose file was tried before, changes nothing. */
  lemma DelegateSkipped(store: Store, rank: map<string, nat>, url: string, t: Topic, i: nat, tried: seq<string>,
      b: Broken, c: Broken)
    requires Acyclic(store, rank) && url in store && i < |store[url]|
    requires Delegating(store, rank, url, t, i, tried, b, c)
    requires Active(url, i, store[url][i], c, t) ==> store[url][i].url in tried
    ensures Delegating(store, rank, url, t, i + 1, tried, b, c)
  {
  }

  lemma DelegateAsked(store: Store, rank: map<string, nat>, url: string, t: Topic, i: nat, tried: seq<string>,
      b: Broken, c: Broken, d: Broken, answer: Answer)
    requires Acyclic(store, rank) && url in store && i < |store[url]|
    requires Delegating(store, rank, url, t, i, tried, b, c)
    requires Active(url, i, store[url][i], c, t)
    requires answer == ReferenceAnswer(store, rank, c, url, store[url][i], PubOf(t), SysOf(t))
    requires GrownBy(store, rank, url, i, c, d) && (answer.NotFound? ==> Agree(store, rank, rank[url], c, d))
    ensures Grown(store, rank, rank[url] + 1, b, d)
    ensures !answer.NotFound? ==> answer == Delegated(store, rank, b, url, t, 0)
    ensures answer.NotFound? ==> Delegating(store, rank, url, t, i + 1, tried + [store[url][i].url], b, d)
  {
    var e := store[url][i];
    if Loads(store, e.url) { LookupAgree(store, rank, b, c, e.url, PubOf(t), SysOf(t)); }
  }

  // ----- the loops over next catalogs and over the list

  ghost predicate NextTried(store: Store, rank: map<string, nat>, url: string, pub: Option<string>,
      sys: Option<string>, i: nat, b: Broken, c: Broken)
    requires Acyclic(store, rank) && url in store && i <= |store[url]|
  {
    && Grown(store, rank, rank[url] + 1, b, c) && Agree(store, rank, rank[url] + 1, b, c)
    && Next(store, rank, b, url, pub, sys, 0) == Next(store, rank, b, url, pub, sys, i)
  }

  lemma NextAsked(store: Store, rank: map<string, nat>, url: string, pub: Option<string>, sys: Option<string>,
      i: nat, b: Broken, c: Broken, d: Broken, answer: Answer)
    requires Acyclic(store, rank) && url in store && i < |store[url]|
    requires NextTried(store, rank, url, pub, sys, i, b, c) && store[url][i].kind.NextCatalog?
    requires answer == ReferenceAnswer(store, rank, c, url, store[url][i], pub, sys)
    requires GrownBy(store, rank, url, i, c, d) && (answer.NotFound? ==> Agree(store, rank, rank[url], c, d))
    ensures Grown(store, rank, rank[url] + 1, b, d)
    ensures !answer.NotFound? ==> answer == Next(store, rank, b, url, pub, sys, 0)
    ensures answer.NotFound? ==> NextTried(store, rank, url, pub, sys, i + 1, b, d)
  {
    var e := store[url][i];
    if Loads(store, e.url) { LookupAgree(store, rank, b, c, e.url, pub, sys); }
  }

  ghost predicate ListTried(store: Store, rank: map<string, nat>, r: nat, list: seq<Entry>, pub: Option<string>,
      sys: Option<string>, i: nat, b: Broken, c: Broken)
    requires Acyclic(store, rank) && i <= |list|
  {
    && Grown(store, rank, r, b, c) && Agree(store, rank, r, b, c)
    && FirstAnswer(store, rank, b, list, pub, sys) == FirstAnswer(store, rank, b, list[i..], pub, sys)
  }

  lemma ListAsked(store: Store, rank: map<string, nat>, r: nat, list: seq<Entry>, pub: Option<string>,
      sys: Option<string>, i: nat, b: Broken, c: Broken, d: Broken, answer: Answer)
    requires Acyclic(store, rank) && i < |list| && ListTried(store, rank, r, list, pub, sys, i, b, c)
    requires list[i].kind.Catalog? && Loads(store, list[i].url) && rank[list[i].url] < r
    requires answer == Lookup(store, rank, c, list[i].url, pub, sys)
    requires Grown(store, rank, rank[list[i].url] + 1, c, d)
    requires answer.NotFound? ==> Agree(store, rank, rank[list[i].url] + 1, c, d)
    ensures Grown(store, rank, r, b, d)
    ensures !answer.NotFound? ==> answer == FirstAnswer(store, rank, b, list, pub, sys)
    ensures answer.NotFound? ==> ListTried(store, rank, r, list, pub, sys, i + 1, b, d)
  {
    LookupAgree(store, rank, b, c, list[i].url, pub, sys);
    assert list[i..][1..] == list[i + 1..];
  }

  // ----- on an acyclic store the run is the lookup

  /** The answer is the specified one, the counters are restored, only entries of files below `r` are
      newly marked, and none of them a delegate if nothing was found. */
  ghost predicate Refines(store: Store, rank: map<string, nat>, r: nat, d: Depths, b: Broken, o: Outcome, spec: Answer)
    requires Acyclic(store, rank)
  {
    && o.answer == spec && o.depth == d && Grown(store, rank, r, b, o.broken)
    && (o.answer.NotFound? ==> Agree(store, rank, r, b, o.broken))
  }

  lemma EnterIsCalm(store: Store, rank: map<string, nat>, d: Depths, url: string)
    requires Acyclic(store, rank) && d.Keys == store.Keys && url in store && Calm(store, rank, rank[url] + 1, d)
    ensures Calm(store, rank, rank[url], d[url := d[url] + 1]) && d[url] + 1 <= MAX_CATAL_DEPTH
  {
  }

  /** On acyclic stores with counters below the limit the run gives the specified answer and restores
      the counters. */
  lemma {:induction false} ResolveRefines(store: Store, rank: map<string, nat>, d: Depths, b: Broken, url: string,
      pub: Option<string>, sys: Option<string>)
    requires Acyclic(store, rank) && d.Keys == store.Keys && url in store && Calm(store, rank, rank[url] + 1, d)
    requires AllMissing(store, b)
    ensures Refines(store, rank, rank[url] + 1, d, b, RunResolve(store, d, b, url, pub, sys),
                    Lookup(store, rank, b, url, pub, sys))
    decreases rank[url], 5, 0
  {
    var e := d[url := d[url] + 1];
    EnterIsCalm(store, rank, d, url);
    FreeShrinks(store, d, e);
    EnteredRefines(store, rank, e, b, url, pub, sys);
    assert e[url := d[url]] == d;
  }

  lemma {:induction false} EnteredRefines(store: Store, rank: map<string, nat>, d: Depths, b: Broken, url: string,
      pub: Option<string>, sys: Option<string>)
    requires Acyclic(store, rank) && d.Keys == store.Keys && url in store && AllMissing(store, b)
    requires Calm(store, rank, rank[url], d) && d[url] <= MAX_CATAL_DEPTH
    ensures var (o, stuck) := RunEntered(store, d, b, url, pub, sys);
            && !stuck
            && Refines(store, rank, rank[url] + 1, d, b, o, Lookup(store, rank, b, url, pub, sys))
    decreases rank[url], 4, 0
  {
    if sys.Some? { SystemRefines(store, rank, d, b, url, sys.value); }
    if pub.Some? { PublicRefines(store, rank, d, b, url, pub.value); }
    NextRefines(store, rank, d, b, b, url, pub, sys, 0);
  }

  lemma {:induction false} SystemRefines(store: Store, rank: map<string, nat>, d: Depths, b: Broken, url: string,
      sys: string)
    requires Acyclic(store, rank) && d.Keys == store.Keys && url in store && Calm(store, rank, rank[url], d)
    requires AllMissing(store, b)
    ensures var o, spec := RunSystem(store, d, b, url, sys), SystemStep(store, rank, b, url, sys);
            && o.Some? == spec.Some?
            && (o.Some? ==> Refines(store, rank, rank[url] + 1, d, b, o.value, spec.value))
    decreases rank[url], 3, 0
  {
    DelegatesRefine(store, rank, d, b, b, url, OfSystem(sys), 0, [], []);
  }

  lemma {:induction false} PublicRefines(store: Store, rank: map<string, nat>, d: Depths, b: Broken, url: string,
      pub: string)
    requires Acyclic(store, rank) && d.Keys == store.Keys && url in store && Calm(store, rank, rank[url], d)
    requires AllMissing(store, b)
    ensures var o, spec := RunPublic(store, d, b, url, pub), PublicStep(store, rank, b, url, pub);
            && o.Some? == spec.Some?
            && (o.Some? ==> Refines(store, rank, rank[url] + 1, d, b, o.value, spec.value))
    decreases rank[url], 3, 0
  {
    DelegatesRefine(store, rank, d, b, b, url, OfPublic(pub), 0, [], []);
  }

  lemma {:induction false} AskRefines(store: Store, rank: map<string, nat>, d: Depths, b: Broken, url: string,
      i: nat, pub: Option<string>, sys: Option<string>)
    requires Acyclic(store, rank) && d.Keys == store.Keys && url in store && i < |store[url]|
    requires IsReference(store[url][i]) && Calm(store, rank, rank[url], d)
    requires AllMissing(store, b)
    ensures var o := RunAsk(store, d, b, url, i, pub, sys);
            && o.answer == ReferenceAnswer(store, rank, b, url, store[url][i], pub, sys)
            && o.depth == d && GrownBy(store, rank, url, i, b, o.broken)
            && (o.answer.NotFound? ==> Agree(store, rank, rank[url], b, o.broken))
    decreases rank[url], 1, 0
  {
    var u := store[url][i].url;
    if Loads(store, u) {
      assert rank[u] < rank[url];
      ResolveRefines(store, rank, d, b, u, pub, sys);
    }
  }

  /** The loop over the delegates from entry `i` on, when those before gave no answer. */
  lemma {:induction false} DelegatesRefine(store: Store, rank: map<string, nat>, d: Depths, b: Broken, c: Broken,
      url: string, t: Topic, i: nat, table: seq<string>, tried: seq<string>)
    requires Acyclic(store, rank) && d.Keys == store.Keys && url in store && i <= |store[url]|
    requires Calm(store, rank, rank[url], d) && Delegating(store, rank, url, t, i, tried, b, c)
    requires forall u :: u in table ==> u in tried
    requires AllMissing(store, c)
    ensures var o := RunDelegates(store, d, c, url, t, i, table);
            && o.answer == Delegated(store, rank, b, url, t, 0) && o.depth == d
            && Grown(store, rank, rank[url] + 1, b, o.broken)
    decreases rank[url], 2, |store[url]| - i
  {
    if i < |store[url]| {
      var e := store[url][i];
      if !Active(url, i, e, c, t) || e.url in table {
        DelegateSkipped(store, rank, url, t, i, tried, b, c);
        DelegatesRefine(store, rank, d, b, c, url, t, i + 1, table, tried);
      } else {
        AskRefines(store, rank, d, c, url, i, PubOf(t), SysOf(t));
        AskSane(store, d, c, url, i, PubOf(t), SysOf(t));
        var o := RunAsk(store, d, c, url, i, PubOf(t), SysOf(t));
        DelegateAsked(store, rank, url, t, i, tried, b, c, o.broken, o.answer);
        if o.answer.NotFound? {
          DelegatesRefine(store, rank, d, b, o.broken, url, t, i + 1, Recorded(table, e.url), tried + [e.url]);
        }
      }
    }
  }

  /** The loop over the next catalogs from entry `i` on, when those before gave no answer. */
  lemma {:induction false} NextRefines(store: Store, rank: map<string, nat>, d: Depths, b: Broken, c: Broken,
      url: string, pub: Option<string>, sys: Option<string>, i: nat)
    requires Acyclic(store, rank) && d.Keys == store.Keys && url in store && i <= |store[url]|
    requires Calm(store, rank, rank[url], d) && d[url] <= MAX_CATAL_DEPTH
    requires NextTried(store, rank, url, pub, sys, i, b, c)
    requires AllMissing(store, c)
    ensures var (o, stuck) := RunNext(store, d, c, url, pub, sys, i);
            !stuck && Refines(store, rank, rank[url] + 1, d, b, o, Next(store, rank, b, url, pub, sys, 0))
    decreases rank[url], 2, |store[url]| - i
  {
    if i < |store[url]| {
      var e := store[url][i];
      if !(e.kind.NextCatalog? && (url, i) !in c) {
        NextRefines(store, rank, d, b, c, url, pub, sys, i + 1);
      } else {
        AskRefines(store, rank, d, c, url, i, pub, sys);
        AskSane(store, d, c, url, i, pub, sys);
        var o := RunAsk(store, d, c, url, i, pub, sys);
        NextAsked(store, rank, url, pub, sys, i, b, c, o.broken, o.answer);
        if o.answer.NotFound? { NextRefines(store, rank, d, b, o.broken, url, pub, sys, i + 1); }
      }
    }
  }

  /** The same for a list of catalogs. */
  lemma {:induction false} WalkRefines(store: Store, rank: map<string, nat>, r: nat, d: Depths, b: Broken, c: Broken,
      list: seq<Entry>, pub: Option<string>, sys: Option<string>, i: nat)
    requires Acyclic(store, rank) && d.Keys == store.Keys && i <= |list|
    requires Below(store, rank, r, list) && Calm(store, rank, r, d)
    requires ListTried(store, rank, r, list, pub, sys, i, b, c)
    requires AllMissing(store, c)
    ensures Refines(store, rank, r, d, b, RunWalk(store, d, c, list[i..], pub, sys),
                    FirstAnswer(store, rank, b, list, pub, sys))
    decreases |list| - i
  {
    if i < |list| {
      assert list[i..][1..] == list[i + 1..] && list[i] in list;
      var url := list[i].url;
      if list[i].kind.Catalog? && Loads(store, url) {
        ResolveRefines(store, rank, d, c, url, pub, sys);
        ResolveSane(store, d, c, url, pub, sys);
        var o := RunResolve(store, d, c, url, pub, sys);
        ListAsked(store, rank, r, list, pub, sys, i, b, c, o.broken, o.answer);
        if o.answer.NotFound? { WalkRefines(store, rank, r, d, b, o.broken, list, pub, sys, i + 1); }
      } else {
        WalkRefines(store, rank, r, d, b, c, list, pub, sys, i + 1);
      }
    }
  }

  lemma ListRefines(store: Store, rank: map<string, nat>, r: nat, d: Depths, b: Broken, list: seq<Entry>,
      pub: Option<string>, sys: Option<string>)
    requires Acyclic(store, rank) && d.Keys == store.Keys
    requires Below(store, rank, r, list) && Calm(store, rank, r, d)
    requires AllMissing(store, b)
    ensures Refines(store, rank, r, d, b, RunList(store, d, b, list, pub, sys),
                    LookupList(store, rank, b, list, pub, sys))
  {
    if pub.None? && sys.None? {
      NoIdentifiers(store, rank, b, list);
    } else {
      var (p, s) := Ids(pub, sys);
      assert list[0..] == list;
      WalkRefines(store, rank, r, d, b, b, list, p, s, 0);
    }
  }
}
