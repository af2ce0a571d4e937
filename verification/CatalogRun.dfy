/** What the resolvers of catalog.c do on any store, cyclic or not, as functions of the counters and of
    the entries marked as broken: the answer, the counters and the marks they leave. */
module CatalogRun {
  import opened Strings
  import opened PublicId
  import opened CatalogSpec

  const MAX_DELEGATE := 50
  const MAX_CATAL_DEPTH := 50

  type Depths = map<string, nat>

  /** Counter values not yet used up: each nested resolve removes one, so recursion ends. */
  ghost function Free(store: Store, depth: Depths): set<(string, nat)>
    requires depth.Keys == store.Keys
  {
    set u, k | u in store && depth[u] <= k <= MAX_CATAL_DEPTH :: (u, k)
  }

  ghost predicate Deeper(store: Store, d: Depths, e: Depths)
    requires d.Keys == store.Keys == e.Keys
  {
    forall u :: u in store ==> d[u] <= e[u]
  }

  lemma FreeShrinks(store: Store, d: Depths, e: Depths)
    requires d.Keys == store.Keys == e.Keys && Deeper(store, d, e)
    ensures Free(store, e) <= Free(store, d)
    ensures forall u :: u in store && d[u] < e[u] && d[u] <= MAX_CATAL_DEPTH ==> Free(store, e) < Free(store, d)
  {
    forall u | u in store && d[u] < e[u] && d[u] <= MAX_CATAL_DEPTH ensures Free(store, e) < Free(store, d) {
      assert (u, d[u]) in Free(store, d) && (u, d[u]) !in Free(store, e);
    }
  }

  // ----- outcomes

  /** `tripped` tells whether some counter passed the limit on the way, `forgot` how often each file was
      left without its counter being dropped. */
  datatype Outcome = Outcome(answer: Answer, depth: Depths, broken: Broken, tripped: bool, forgot: multiset<string>)

  function Done(answer: Answer, d: Depths, b: Broken): Outcome { Outcome(answer, d, b, false, multiset{}) }

  function Idle(d: Depths, b: Broken): Outcome { Done(NotFound, d, b) }

  /** `rest` with what happened before it. */
  function Then(o: Outcome, rest: Outcome): Outcome
  {
    rest.(tripped := o.tripped || rest.tripped, forgot := o.forgot + rest.forgot)
  }

  /** The same but for whether a counter passed the limit. */
  predicate Same(o: Outcome, p: Outcome)
  {
    o.answer == p.answer && o.depth == p.depth && o.broken == p.broken
  }

  // ----- the run

  /** xmlCatalogXMLResolve: a file whose counter has passed the limit is not looked at. */
  ghost function RunResolve(store: Store, d: Depths, b: Broken, url: string, pub: Option<string>,
      sys: Option<string>): (o: Outcome)
    requires d.Keys == store.Keys && url in store
    ensures o.depth.Keys == store.Keys && Deeper(store, d, o.depth)
    decreases Free(store, d), 1, 0
  {
    if d[url] > MAX_CATAL_DEPTH then Idle(d, b)
    else
      var e := d[url := d[url] + 1];
      FreeShrinks(store, d, e);
      var (o, stuck) := RunEntered(store, e, b, url, pub, sys);
      Left(store, d, url, o, stuck)
  }

  /** On the way out the counter drops, unless the way out forgets it. */
  ghost function Left(store: Store, d: Depths, url: string, o: Outcome, stuck: bool): (r: Outcome)
    requires d.Keys == store.Keys && url in store && d[url] <= MAX_CATAL_DEPTH
    requires o.depth.Keys == store.Keys && Deeper(store, d[url := d[url] + 1], o.depth)
    ensures r.depth.Keys == store.Keys && Deeper(store, d, r.depth)
  {
    var p := o.(tripped := o.tripped || d[url] == MAX_CATAL_DEPTH || stuck);
    if stuck then p.(forgot := p.forgot + multiset{url}) else p.(depth := p.depth[url := p.depth[url] - 1])
  }

  /** The steps of section 7.1.2. */
  ghost function RunEntered(store: Store, d: Depths, b: Broken, url: string, pub: Option<string>,
      sys: Option<string>): (r: (Outcome, bool))
    requires d.Keys == store.Keys && url in store
    ensures r.0.depth.Keys == store.Keys && Deeper(store, d, r.0.depth)
    ensures r.1 ==> r.0.answer.NotFound? && r.0.depth[url] > MAX_CATAL_DEPTH
    decreases Free(store, d), 6, 0
  {
    var bySystem := if sys.Some? then RunSystem(store, d, b, url, sys.value) else None;
    if bySystem.Some? then (bySystem.value, false)
    else
      var byPublic := if pub.Some? then RunPublic(store, d, b, url, pub.value) else None;
      if byPublic.Some? then (byPublic.value, false)
      else if pub.None? && sys.None? then (Idle(d, b), false)
      else RunNext(store, d, b, url, pub, sys, 0)
  }

  ghost function RunSystem(store: Store, d: Depths, b: Broken, url: string, sys: string): (r: Option<Outcome>)
    requires d.Keys == store.Keys && url in store
    ensures r.Some? ==> r.value.depth.Keys == store.Keys && Deeper(store, d, r.value.depth) && !r.value.answer.NotFound?
    decreases Free(store, d), 5, 0
  {
    var es := store[url];
    if First(es, System, sys).Some? then Some(Done(Found(es[First(es, System, sys).value].url), d, b))
    else if Best(es, sys).Some? then
      var i := Best(es, sys).value;
      Some(Done(Found(es[i].url + sys[|es[i].name|..]), d, b))
    else if AnyActive(url, es, b, OfSystem(sys)) then
      var o := RunDelegates(store, d, b, url, OfSystem(sys), 0, []);
      Some(o.(answer := CutOff(o.answer, url, OfSystem(sys))))
    else None
  }

  ghost function RunPublic(store: Store, d: Depths, b: Broken, url: string, pub: string): (r: Option<Outcome>)
    requires d.Keys == store.Keys && url in store
    ensures r.Some? ==> r.value.depth.Keys == store.Keys && Deeper(store, d, r.value.depth) && !r.value.answer.NotFound?
    decreases Free(store, d), 5, 0
  {
    var es := store[url];
    if First(es, Public, pub).Some? then Some(Done(Found(es[First(es, Public, pub).value].url), d, b))
    else if AnyActive(url, es, b, OfPublic(pub)) then
      var o := RunDelegates(store, d, b, url, OfPublic(pub), 0, []);
      Some(o.(answer := CutOff(o.answer, url, OfPublic(pub))))
    else None
  }

  /** The table of files already tried has 50 places. */
  function Recorded(table: seq<string>, url: string): seq<string>
  {
    if |table| < MAX_DELEGATE then table + [url] else table
  }

  /** The delegates from entry `i` on, except those whose file is in the table. */
  ghost function RunDelegates(store: Store, d: Depths, b: Broken, url: string, t: Topic, i: nat,
      table: seq<string>): (o: Outcome)
    requires d.Keys == store.Keys && url in store && i <= |store[url]|
    ensures o.depth.Keys == store.Keys && Deeper(store, d, o.depth)
    decreases Free(store, d), 4, |store[url]| - i
  {
    if i == |store[url]| then Idle(d, b)
    else
      var e := store[url][i];
      if !Active(url, i, e, b, t) || e.url in table then RunDelegates(store, d, b, url, t, i + 1, table)
      else
        var o := RunAsk(store, d, b, url, i, PubOf(t), SysOf(t));
        if !o.answer.NotFound? then o
        else
          FreeShrinks(store, d, o.depth);
          var rest := RunDelegates(store, o.depth, o.broken, url, t, i + 1, Recorded(table, e.url));
          Then(o, rest)
  }

  /** The file an entry refers to is asked; if there is none the entry is marked. */
  ghost function RunAsk(store: Store, d: Depths, b: Broken, url: string, i: nat, pub: Option<string>,
      sys: Option<string>): (o: Outcome)
    requires d.Keys == store.Keys && url in store && i < |store[url]| && IsReference(store[url][i])
    ensures o.depth.Keys == store.Keys && Deeper(store, d, o.depth)
    decreases Free(store, d), 2, 0
  {
    var u := store[url][i].url;
    if u !in store then Idle(d, b + {(url, i)})
    else if store[u] == [] then Idle(d, b)
    else RunResolve(store, d, b, u, pub, sys)
  }

  /** The next catalogs from entry `i` on; the second part tells whether the way out was the one that
      forgets the counter. */
  ghost function RunNext(store: Store, d: Depths, b: Broken, url: string, pub: Option<string>, sys: Option<string>,
      i: nat): (r: (Outcome, bool))
    requires d.Keys == store.Keys && url in store && i <= |store[url]|
    ensures r.0.depth.Keys == store.Keys && Deeper(store, d, r.0.depth)
    ensures r.1 ==> r.0.answer.NotFound? && r.0.depth[url] > MAX_CATAL_DEPTH
    decreases Free(store, d), 4, |store[url]| - i
  {
    if i == |store[url]| then (Idle(d, b), false)
    else
      var e := store[url][i];
      if !(e.kind.NextCatalog? && (url, i) !in b) then RunNext(store, d, b, url, pub, sys, i + 1)
      else
        var o := RunAsk(store, d, b, url, i, pub, sys);
        if !o.answer.NotFound? then (o, false)
        else if e.url in store && o.depth[url] > MAX_CATAL_DEPTH then (o, true)
        else
          FreeShrinks(store, d, o.depth);
          var (rest, stuck) := RunNext(store, o.depth, o.broken, url, pub, sys, i + 1);
          (Then(o, rest), stuck)
  }

  /** xmlCatalogListXMLResolve: URNs are unwrapped first. */
  ghost function RunList(store: Store, d: Depths, b: Broken, list: seq<Entry>, pub: Option<string>,
      sys: Option<string>): (o: Outcome)
    requires d.Keys == store.Keys
    ensures o.depth.Keys == store.Keys && Deeper(store, d, o.depth)
  {
    if pub.None? && sys.None? then Idle(d, b)
    else
      var (p, s) := Ids(pub, sys);
      RunWalk(store, d, b, list, p, s)
  }

  /** The catalogs of a list, in order, up to one whose counter has passed the limit. */
  ghost function RunWalk(store: Store, d: Depths, b: Broken, list: seq<Entry>, pub: Option<string>,
      sys: Option<string>): (o: Outcome)
    requires d.Keys == store.Keys
    ensures o.depth.Keys == store.Keys && Deeper(store, d, o.depth)
    decreases |list|
  {
    if list == [] then Idle(d, b)
    else
      var url := list[0].url;
      if !(list[0].kind.Catalog? && Loads(store, url)) then RunWalk(store, d, b, list[1..], pub, sys)
      else
        var o := RunResolve(store, d, b, url, pub, sys);
        if !o.answer.NotFound? || o.depth[url] > MAX_CATAL_DEPTH then o
        else
          var rest := RunWalk(store, o.depth, o.broken, list[1..], pub, sys);
          Then(o, rest)
  }

  // ----- what every run keeps

  /** No counter ends lower than it was or above the limit plus one; each is higher by exactly as often
      as its file was left without dropping it, which never happens unless some counter passed the
      limit; and only references without a file are newly marked. */
  ghost predicate Sane(store: Store, d: Depths, b: Broken, o: Outcome)
    requires d.Keys == store.Keys
  {
    && o.depth.Keys == store.Keys && Deeper(store, d, o.depth)
    && (forall u :: u in store ==> o.depth[u] == d[u] || o.depth[u] <= MAX_CATAL_DEPTH + 1)
    && b <= o.broken && (forall x :: x in o.broken && x !in b ==> Missing(store, x))
    && (forall u :: u in store ==> o.depth[u] == d[u] + o.forgot[u])
    && (forall u :: u in o.forgot ==> u in store)
    && (!o.tripped ==> o.depth == d && o.forgot == multiset{})
  }

  lemma SaneThen(store: Store, d: Depths, b: Broken, o: Outcome, p: Outcome)
    requires d.Keys == store.Keys && Sane(store, d, b, o) && Sane(store, o.depth, o.broken, p)
    ensures Sane(store, d, b, Then(o, p))
  {
  }

  lemma {:induction false} ResolveSane(store: Store, d: Depths, b: Broken, url: string, pub: Option<string>,
      sys: Option<string>)
    requires d.Keys == store.Keys && url in store
    ensures Sane(store, d, b, RunResolve(store, d, b, url, pub, sys))
    decreases Free(store, d), 1, 0
  {
    if d[url] <= MAX_CATAL_DEPTH {
      var e := d[url := d[url] + 1];
      FreeShrinks(store, d, e);
      EnteredSane(store, e, b, url, pub, sys);
      var (o, stuck) := RunEntered(store, e, b, url, pub, sys);
      LeftSane(store, d, b, url, o, stuck);
    }
  }

  lemma LeftSane(store: Store, d: Depths, b: Broken, url: string, o: Outcome, stuck: bool)
    requires d.Keys == store.Keys && url in store && d[url] <= MAX_CATAL_DEPTH
    requires Sane(store, d[url := d[url] + 1], b, o)
    ensures Sane(store, d, b, Left(store, d, url, o, stuck))
  {
    if stuck { StuckSane(store, d, b, url, o); } else { DroppedSane(store, d, b, url, o); }
  }

  lemma StuckSane(store: Store, d: Depths, b: Broken, url: string, o: Outcome)
    requires d.Keys == store.Keys && url in store && d[url] <= MAX_CATAL_DEPTH
    requires Sane(store, d[url := d[url] + 1], b, o)
    ensures Sane(store, d, b, Left(store, d, url, o, true))
  {
    var r := Left(store, d, url, o, true);
    assert r.tripped && r.depth == o.depth && forall u :: r.forgot[u] == o.forgot[u] + if u == url then 1 else 0;
  }

  lemma DroppedSane(store: Store, d: Depths, b: Broken, url: string, o: Outcome)
    requires d.Keys == store.Keys && url in store && d[url] <= MAX_CATAL_DEPTH
    requires Sane(store, d[url := d[url] + 1], b, o)
    ensures Sane(store, d, b, Left(store, d, url, o, false))
  {
    assert d[url := d[url] + 1][url := d[url]] == d;
  }

  lemma {:induction false} EnteredSane(store: Store, d: Depths, b: Broken, url: string, pub: Option<string>,
      sys: Option<string>)
    requires d.Keys == store.Keys && url in store
    ensures Sane(store, d, b, RunEntered(store, d, b, url, pub, sys).0)
    decreases Free(store, d), 6, 0
  {
    if sys.Some? { SystemSane(store, d, b, url, sys.value); }
    if pub.Some? { PublicSane(store, d, b, url, pub.value); }
    NextSane(store, d, b, url, pub, sys, 0);
  }

  lemma {:induction false} SystemSane(store: Store, d: Depths, b: Broken, url: string, sys: string)
    requires d.Keys == store.Keys && url in store
    ensures var o := RunSystem(store, d, b, url, sys); o.Some? ==> Sane(store, d, b, o.value)
    decreases Free(store, d), 5, 0
  {
    DelegatesSane(store, d, b, url, OfSystem(sys), 0, []);
  }

  lemma {:induction false} PublicSane(store: Store, d: Depths, b: Broken, url: string, pub: string)
    requires d.Keys == store.Keys && url in store
    ensures var o := RunPublic(store, d, b, url, pub); o.Some? ==> Sane(store, d, b, o.value)
    decreases Free(store, d), 5, 0
  {
    DelegatesSane(store, d, b, url, OfPublic(pub), 0, []);
  }

  lemma {:induction false} DelegatesSane(store: Store, d: Depths, b: Broken, url: string, t: Topic, i: nat,
      table: seq<string>)
    requires d.Keys == store.Keys && url in store && i <= |store[url]|
    ensures Sane(store, d, b, RunDelegates(store, d, b, url, t, i, table))
    decreases Free(store, d), 4, |store[url]| - i
  {
    if i < |store[url]| {
      var e := store[url][i];
      if !Active(url, i, e, b, t) || e.url in table {
        DelegatesSane(store, d, b, url, t, i + 1, table);
      } else {
        AskSane(store, d, b, url, i, PubOf(t), SysOf(t));
        var o := RunAsk(store, d, b, url, i, PubOf(t), SysOf(t));
        if o.answer.NotFound? {
          FreeShrinks(store, d, o.depth);
          DelegatesSane(store, o.depth, o.broken, url, t, i + 1, Recorded(table, e.url));
          SaneThen(store, d, b, o, RunDelegates(store, o.depth, o.broken, url, t, i + 1, Recorded(table, e.url)));
        }
      }
    }
  }

  lemma {:induction false} AskSane(store: Store, d: Depths, b: Broken, url: string, i: nat, pub: Option<string>,
      sys: Option<string>)
    requires d.Keys == store.Keys && url in store && i < |store[url]| && IsReference(store[url][i])
    ensures Sane(store, d, b, RunAsk(store, d, b, url, i, pub, sys))
    decreases Free(store, d), 2, 0
  {
    if Loads(store, store[url][i].url) { ResolveSane(store, d, b, store[url][i].url, pub, sys); }
  }

  lemma {:induction false} NextSane(store: Store, d: Depths, b: Broken, url: string, pub: Option<string>,
      sys: Option<string>, i: nat)
    requires d.Keys == store.Keys && url in store && i <= |store[url]|
    ensures Sane(store, d, b, RunNext(store, d, b, url, pub, sys, i).0)
    decreases Free(store, d), 4, |store[url]| - i
  {
    if i < |store[url]| {
      var e := store[url][i];
      if !(e.kind.NextCatalog? && (url, i) !in b) {
        NextSane(store, d, b, url, pub, sys, i + 1);
      } else {
        AskSane(store, d, b, url, i, pub, sys);
        var o := RunAsk(store, d, b, url, i, pub, sys);
        if o.answer.NotFound? {
          FreeShrinks(store, d, o.depth);
          NextSane(store, o.depth, o.broken, url, pub, sys, i + 1);
          SaneThen(store, d, b, o, RunNext(store, o.depth, o.broken, url, pub, sys, i + 1).0);
        }
      }
    }
  }

  /** Whatever the store and the answer: the counters are as they were exactly when no file was left
      without dropping its counter, and that takes a counter beyond the limit. */
  lemma RestoredUnlessForgotten(store: Store, d: Depths, b: Broken, url: string, pub: Option<string>,
      sys: Option<string>)
    requires d.Keys == store.Keys && url in store
    ensures var o := RunResolve(store, d, b, url, pub, sys);
            && (o.depth == d <==> o.forgot == multiset{})
            && (forall u :: u in store ==> o.depth[u] == d[u] + o.forgot[u])
            && (o.forgot != multiset{} ==> o.tripped)
  {
    ResolveSane(store, d, b, url, pub, sys);
    var o := RunResolve(store, d, b, url, pub, sys);
    if o.depth == d {
      assert forall u :: o.forgot[u] == 0;
    }
  }
}
