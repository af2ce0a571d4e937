/** The nesting counters of the catalog resolvers: how many nested lookups they leave, and exactly when a
    lookup that finds nothing leaves them changed. */
module CatalogLeaks {
  import opened Strings
  import opened PublicId
  import opened CatalogSpec
  import opened CatalogRun

  // ----- how many nested lookups are left

  /** The sum over all files of 51 minus the counter. */
  ghost function Remaining(store: Store, d: Depths): nat
    requires d.Keys == store.Keys && forall u :: u in store ==> d[u] <= MAX_CATAL_DEPTH + 1
    decreases store.Keys
  {
    if store.Keys == {} then 0
    else
      var u :| u in store.Keys;
      assert (store - {u}).Keys == store.Keys - {u} == (d - {u}).Keys;
      MAX_CATAL_DEPTH + 1 - d[u] + Remaining(store - {u}, d - {u})
  }

  lemma {:induction false} RangeCount(u: string, lo: nat)
    requires lo <= MAX_CATAL_DEPTH + 1
    ensures |set k: nat | lo <= k <= MAX_CATAL_DEPTH :: (u, k)| == MAX_CATAL_DEPTH + 1 - lo
    decreases MAX_CATAL_DEPTH + 1 - lo
  {
    var s := set k: nat | lo <= k <= MAX_CATAL_DEPTH :: (u, k);
    if lo > MAX_CATAL_DEPTH {
      assert s == {};
    } else {
      RangeCount(u, lo + 1);
      assert s == {(u, lo)} + (set k: nat | lo + 1 <= k <= MAX_CATAL_DEPTH :: (u, k));
    }
  }

  lemma Picked(store: Store, d: Depths) returns (u: string)
    requires d.Keys == store.Keys && store.Keys != {} && forall u :: u in store ==> d[u] <= MAX_CATAL_DEPTH + 1
    ensures u in store && (store - {u}).Keys == store.Keys - {u} == (d - {u}).Keys
    ensures Remaining(store, d) == MAX_CATAL_DEPTH + 1 - d[u] + Remaining(store - {u}, d - {u})
  {
    u :| u in store.Keys && (store - {u}).Keys == store.Keys - {u} == (d - {u}).Keys &&
      Remaining(store, d) == MAX_CATAL_DEPTH + 1 - d[u] + Remaining(store - {u}, d - {u});
  }

  /** The counter values not yet used up are as many as that sum. */
  lemma {:induction false} FreeIsRemaining(store: Store, d: Depths)
    requires d.Keys == store.Keys && forall u :: u in store ==> d[u] <= MAX_CATAL_DEPTH + 1
    ensures |Free(store, d)| == Remaining(store, d)
    decreases store.Keys
  {
    if store.Keys == {} {
      assert Free(store, d) == {};
    } else {
      var u := Picked(store, d);
      assert (store - {u}).Keys == store.Keys - {u} == (d - {u}).Keys;
      FreeIsRemaining(store - {u}, d - {u});
      FreeOfOne(store, d, u);
    }
  }

  /** One file's part of them. */
  lemma FreeOfOne(store: Store, d: Depths, u: string)
    requires d.Keys == store.Keys && u in store && d[u] <= MAX_CATAL_DEPTH + 1
    ensures |Free(store, d)| == |Free(store - {u}, d - {u})| + (MAX_CATAL_DEPTH + 1 - d[u])
  {
    var here := set k: nat | d[u] <= k <= MAX_CATAL_DEPTH :: (u, k);
    var others := Free(store - {u}, d - {u});
    RangeCount(u, d[u]);
    assert Free(store, d) == others + here && others !! here;
  }

  /** Every nested lookup takes one off that sum, so no more than it says can be nested. */
  lemma EnteringTakesOne(store: Store, d: Depths, url: string)
    requires d.Keys == store.Keys && forall u :: u in store ==> d[u] <= MAX_CATAL_DEPTH + 1
    requires url in store && d[url] <= MAX_CATAL_DEPTH
    ensures Remaining(store, d[url := d[url] + 1]) == Remaining(store, d) - 1
  {
    var e := d[url := d[url] + 1];
    FreeIsRemaining(store, d);
    FreeIsRemaining(store, e);
    var x := (url, d[url]);
    forall y ensures y in Free(store, d) <==> y == x || y in Free(store, e) {
      assert y.0 in store && y.0 != url ==> e[y.0] == d[y.0];
    }
    assert Free(store, d) == Free(store, e) + {x} && x !in Free(store, e);
  }

  // ----- chains of references

  /** Entry `i` is a next catalog that can be loaded, or such a delegate for one of the topics. */
  predicate Leads(store: Store, u: string, i: nat, topics: set<Topic>)
  {
    && u in store && i < |store[u]| && store[u][i].url in store
    && (store[u][i].kind.NextCatalog? || exists t :: t in topics && Delegates(store[u][i], t))
  }

  /** There is a chain of `n` such references from `u` on. */
  ghost predicate CanGo(store: Store, u: string, n: nat, topics: set<Topic>)
    decreases n
  {
    n == 0 || exists i: nat :: Leads(store, u, i, topics) && CanGo(store, store[u][i].url, n - 1, topics)
  }

  /** There are chains of every length: the references run in a circle somewhere. */
  ghost predicate Endless(store: Store, u: string, topics: set<Topic>)
  {
    forall n: nat :: CanGo(store, u, n, topics)
  }

  lemma {:induction false} CanGoLess(store: Store, u: string, n: nat, m: nat, topics: set<Topic>)
    requires CanGo(store, u, n, topics) && m <= n
    ensures CanGo(store, u, m, topics)
    decreases n
  {
    if m > 0 {
      var i: nat :| Leads(store, u, i, topics) && CanGo(store, store[u][i].url, n - 1, topics);
      CanGoLess(store, store[u][i].url, n - 1, m - 1, topics);
    }
  }

  // ----- a lookup that finds nothing

  /** Neither a system identifier nor a public one was answered. */
  lemma Silent(store: Store, e: Depths, b: Broken, url: string, pub: Option<string>, sys: Option<string>)
    requires e.Keys == store.Keys && url in store && (pub.Some? || sys.Some?)
    requires RunEntered(store, e, b, url, pub, sys).0.answer.NotFound?
    ensures RunEntered(store, e, b, url, pub, sys) == RunNext(store, e, b, url, pub, sys, 0)
  {
  }

  lemma Entering(store: Store, d: Depths, b: Broken, url: string, pub: Option<string>, sys: Option<string>)
    requires d.Keys == store.Keys && url in store && d[url] <= MAX_CATAL_DEPTH
    ensures var (o, stuck) := RunEntered(store, d[url := d[url] + 1], b, url, pub, sys);
            && RunResolve(store, d, b, url, pub, sys).answer == o.answer
            && RunResolve(store, d, b, url, pub, sys).depth ==
               (if stuck then o.depth else o.depth[url := o.depth[url] - 1])
  {
  }

  /** It went through the next catalogs of its file. */
  lemma NothingFound(store: Store, d: Depths, b: Broken, url: string, pub: Option<string>, sys: Option<string>)
    requires d.Keys == store.Keys && url in store && d[url] <= MAX_CATAL_DEPTH && (pub.Some? || sys.Some?)
    requires RunResolve(store, d, b, url, pub, sys).answer.NotFound?
    ensures var (o, stuck) := RunNext(store, d[url := d[url] + 1], b, url, pub, sys, 0);
            && o.answer.NotFound?
            && RunResolve(store, d, b, url, pub, sys).depth ==
               (if stuck then o.depth else o.depth[url := o.depth[url] - 1])
  {
    Entering(store, d, b, url, pub, sys);
    Silent(store, d[url := d[url] + 1], b, url, pub, sys);
  }

  lemma Dropped(d: Depths, f: Depths, url: string)
    requires url in f && f[url] > 0 && f[url := f[url] - 1] == d
    ensures f == d[url := d[url] + 1]
  {
    assert f == f[url := f[url] - 1][url := f[url]];
  }

  lemma {:induction false} Fewer<T>(a: set<T>, b: set<T>)
    requires a < b
    ensures |a| < |b|
  {
    assert b == a + (b - a) && b - a != {};
  }

  // ----- counters restored only if the chains end

  ghost predicate AtMost(store: Store, d: Depths, k: nat)
    requires d.Keys == store.Keys
  {
    forall u :: u in store ==> d[u] <= k
  }

  /** Then the next catalogs of the file have restored the counters too. */
  lemma NothingKept(store: Store, d: Depths, b: Broken, url: string, pub: Option<string>, sys: Option<string>)
    requires d.Keys == store.Keys && url in store && d[url] <= MAX_CATAL_DEPTH && (pub.Some? || sys.Some?)
    requires RunResolve(store, d, b, url, pub, sys).answer.NotFound?
    requires RunResolve(store, d, b, url, pub, sys).depth == d
    ensures var e := d[url := d[url] + 1];
            var (o, stuck) := RunNext(store, e, b, url, pub, sys, 0);
            o.answer.NotFound? && !stuck && o.depth == e
  {
    NothingFound(store, d, b, url, pub, sys);
    var (o, stuck) := RunNext(store, d[url := d[url] + 1], b, url, pub, sys, 0);
    if !stuck { Dropped(d, o.depth, url); }
  }

  lemma {:induction false} RestoredIsBounded(store: Store, d: Depths, b: Broken, url: string,
                                             pub: Option<string>, sys: Option<string>)
    requires d.Keys == store.Keys && url in store && AllMissing(store, b) && (pub.Some? || sys.Some?)
    requires AtMost(store, d, MAX_CATAL_DEPTH)
    requires RunResolve(store, d, b, url, pub, sys).answer.NotFound?
    requires RunResolve(store, d, b, url, pub, sys).depth == d
    ensures !CanGo(store, url, |Free(store, d)| + 1, {})
    decreases Free(store, d), 1, 0
  {
    var e := d[url := d[url] + 1];
    FreeShrinks(store, d, e);
    Fewer(Free(store, e), Free(store, d));
    NothingKept(store, d, b, url, pub, sys);
    NextRestored(store, e, b, url, pub, sys, 0);
    NoChain(store, url, |Free(store, e)| + 1, |Free(store, d)|);
  }

  lemma NoChain(store: Store, url: string, m: nat, n: nat)
    requires m <= n
    requires NoneGoes(store, url, 0, m)
    ensures !CanGo(store, url, n + 1, {})
  {
    if CanGo(store, url, n + 1, {}) {
      var i: nat :| Leads(store, url, i, {}) && CanGo(store, store[url][i].url, n, {});
      CanGoLess(store, store[url][i].url, n, m, {});
    }
  }

  /** No next catalog from entry `i` on begins a chain of length `m`. */
  ghost predicate NoneGoes(store: Store, url: string, i: nat, m: nat)
  {
    forall j: nat :: i <= j && Leads(store, url, j, {}) ==> !CanGo(store, store[url][j].url, m, {})
  }

  lemma NoneGoesFrom(store: Store, url: string, i: nat, m: nat)
    requires NoneGoes(store, url, i + 1, m)
    requires Leads(store, url, i, {}) ==> !CanGo(store, store[url][i].url, m, {})
    ensures NoneGoes(store, url, i, m)
  {
  }

  lemma {:induction false} NextRestored(store: Store, e: Depths, b: Broken, url: string,
                                        pub: Option<string>, sys: Option<string>, i: nat)
    requires e.Keys == store.Keys && url in store && i <= |store[url]| && AllMissing(store, b)
    requires pub.Some? || sys.Some?
    requires forall u :: u in store && u != url ==> e[u] <= MAX_CATAL_DEPTH
    requires var (o, stuck) := RunNext(store, e, b, url, pub, sys, i);
             o.answer.NotFound? && !stuck && o.depth == e
    ensures NoneGoes(store, url, i, |Free(store, e)| + 1)
    decreases Free(store, e), 2, |store[url]| - i
  {
    if i < |store[url]| {
      if store[url][i].kind.NextCatalog? && (url, i) !in b {
        var o := RunAsk(store, e, b, url, i, pub, sys);
        assert Deeper(store, o.depth, RunNext(store, e, b, url, pub, sys, i).0.depth);
        AskSane(store, e, b, url, i, pub, sys);
        assert o.depth == e;
        NextRestored(store, e, o.broken, url, pub, sys, i + 1);
        AskRestored(store, e, b, url, i, pub, sys);
      } else {
        NextRestored(store, e, b, url, pub, sys, i + 1);
      }
      NoneGoesFrom(store, url, i, |Free(store, e)| + 1);
    }
  }

  lemma {:induction false} AskRestored(store: Store, e: Depths, b: Broken, url: string, i: nat,
                                       pub: Option<string>, sys: Option<string>)
    requires e.Keys == store.Keys && url in store && i < |store[url]| && AllMissing(store, b)
    requires (pub.Some? || sys.Some?) && store[url][i].kind.NextCatalog?
    requires forall u :: u in store && u != url ==> e[u] <= MAX_CATAL_DEPTH
    requires RunAsk(store, e, b, url, i, pub, sys).answer.NotFound?
    requires RunAsk(store, e, b, url, i, pub, sys).depth == e
    requires store[url][i].url in store ==> e[url] <= MAX_CATAL_DEPTH
    ensures Leads(store, url, i, {}) ==> !CanGo(store, store[url][i].url, |Free(store, e)| + 1, {})
    decreases Free(store, e), 1, 1
  {
    var v := store[url][i].url;
    if v in store {
      if store[v] == [] {
        assert forall j: nat :: !Leads(store, v, j, {});
      } else {
        RestoredIsBounded(store, e, b, v, pub, sys);
      }
    }
  }

  // ----- and whenever they do

  /** From the files of `S` such references lead to files of `S` of lower rank only. */
  ghost predicate Ranked(store: Store, S: set<string>, rank: map<string, nat>, topics: set<Topic>)
  {
    && (forall u :: u in S ==> u in store && u in rank)
    && forall u, i: nat :: u in S && Leads(store, u, i, topics) ==>
         store[u][i].url in S && rank[store[u][i].url] < rank[u]
  }

  /** All of them that are of rank below `r` have room for one more nested lookup. */
  ghost predicate Roomy(store: Store, d: Depths, S: set<string>, rank: map<string, nat>, r: nat)
    requires d.Keys == store.Keys && forall u :: u in S ==> u in store && u in rank
  {
    forall u :: u in S && rank[u] < r ==> d[u] < MAX_CATAL_DEPTH
  }

  /** The length that no chain from `u` reaches, taken as small as it can be. */
  ghost function Height(store: Store, u: string, n: nat, topics: set<Topic>): (h: nat)
    requires !CanGo(store, u, n, topics)
    ensures 0 < h <= n && !CanGo(store, u, h, topics)
    decreases n
  {
    if CanGo(store, u, n - 1, topics) then n else Height(store, u, n - 1, topics)
  }

  lemma {:induction false} HeightLeast(store: Store, u: string, n: nat, m: nat, topics: set<Topic>)
    requires !CanGo(store, u, n, topics) && !CanGo(store, u, m, topics) && m <= n
    ensures Height(store, u, n, topics) <= m
    decreases n
  {
    if m < n {
      if CanGo(store, u, n - 1, topics) { CanGoLess(store, u, n - 1, m, topics); }
      HeightLeast(store, u, n - 1, m, topics);
    }
  }

  lemma HeightDrops(store: Store, u: string, i: nat, n: nat, topics: set<Topic>)
    requires !CanGo(store, u, n, topics) && Leads(store, u, i, topics)
    ensures var v := store[u][i].url;
            !CanGo(store, v, n, topics) && Height(store, v, n, topics) < Height(store, u, n, topics)
  {
    var v := store[u][i].url;
    var h := Height(store, u, n, topics);
    assert !CanGo(store, v, h - 1, topics);
    if CanGo(store, v, n, topics) { CanGoLess(store, v, n, h - 1, topics); }
    HeightLeast(store, v, n, h - 1, topics);
  }

  /** If no chain from a file is endless, what it can reach is ranked. */
  lemma Ranking(store: Store, url: string, topics: set<Topic>) returns (S: set<string>, rank: map<string, nat>)
    requires url in store && !Endless(store, url, topics)
    ensures Ranked(store, S, rank, topics) && url in S
  {
    var n: nat :| !CanGo(store, url, n, topics);
    S := set u | u in store && !CanGo(store, u, n, topics);
    rank := map u | u in S :: Height(store, u, n, topics);
    forall u, i: nat | u in S && Leads(store, u, i, topics)
      ensures store[u][i].url in S && rank[store[u][i].url] < rank[u]
    {
      HeightDrops(store, u, i, n, topics);
    }
  }

  lemma RaisedAndDropped(d: Depths, url: string)
    requires url in d
    ensures var e := d[url := d[url] + 1]; e[url := e[url] - 1] == d
  {
  }

  /** A lookup that finds nothing, with room for one more nested lookup in the files it can reach by next
      catalogs. */
  lemma {:induction false} NothingRestores(store: Store, d: Depths, b: Broken, url: string, pub: Option<string>,
      sys: Option<string>, S: set<string>, rank: map<string, nat>)
    requires d.Keys == store.Keys && url in S && (pub.Some? || sys.Some?) && Ranked(store, S, rank, {})
    requires Roomy(store, d, S, rank, rank[url] + 1) && RunResolve(store, d, b, url, pub, sys).answer.NotFound?
    ensures RunResolve(store, d, b, url, pub, sys).depth == d
    decreases rank[url], 1, 0
  {
    NothingFound(store, d, b, url, pub, sys);
    NextNothingRestores(store, d[url := d[url] + 1], b, url, pub, sys, S, rank, 0);
    RaisedAndDropped(d, url);
  }

  lemma {:induction false} NextNothingRestores(store: Store, e: Depths, b: Broken, url: string, pub: Option<string>,
      sys: Option<string>, S: set<string>, rank: map<string, nat>, i: nat)
    requires e.Keys == store.Keys && url in S && Ranked(store, S, rank, {}) && i <= |store[url]|
    requires (pub.Some? || sys.Some?) && Roomy(store, e, S, rank, rank[url]) && e[url] <= MAX_CATAL_DEPTH
    requires RunNext(store, e, b, url, pub, sys, i).0.answer.NotFound?
    ensures RunNext(store, e, b, url, pub, sys, i).0.depth == e && !RunNext(store, e, b, url, pub, sys, i).1
    decreases rank[url], 0, |store[url]| - i
  {
    if i < |store[url]| {
      if store[url][i].kind.NextCatalog? && (url, i) !in b {
        var v := store[url][i].url;
        if Loads(store, v) {
          assert Leads(store, url, i, {});
          NothingRestores(store, e, b, v, pub, sys, S, rank);
        }
        var o := RunAsk(store, e, b, url, i, pub, sys);
        assert o.depth == e;
        NextNothingRestores(store, e, o.broken, url, pub, sys, S, rank, i + 1);
      } else {
        NextNothingRestores(store, e, b, url, pub, sys, S, rank, i + 1);
      }
    }
  }

  /** A lookup that finds nothing leaves the counters as they were exactly when the next catalogs do
      not run in a circle from its file on. */
  lemma RestoredExactly(store: Store, d: Depths, b: Broken, url: string, pub: Option<string>, sys: Option<string>)
    requires d.Keys == store.Keys && url in store && AllMissing(store, b) && (pub.Some? || sys.Some?)
    requires AtMost(store, d, MAX_CATAL_DEPTH - 1)
    requires RunResolve(store, d, b, url, pub, sys).answer.NotFound?
    ensures RunResolve(store, d, b, url, pub, sys).depth == d <==> !Endless(store, url, {})
  {
    if RunResolve(store, d, b, url, pub, sys).depth == d {
      RestoredIsBounded(store, d, b, url, pub, sys);
    }
    if !Endless(store, url, {}) {
      var S, rank := Ranking(store, url, {});
      NothingRestores(store, d, b, url, pub, sys, S, rank);
    }
  }

  // ----- any answer

  /** The identifiers of a question, as topics. */
  function Topics(pub: Option<string>, sys: Option<string>): set<Topic>
  {
    (if pub.Some? then {OfPublic(pub.value)} else {}) + (if sys.Some? then {OfSystem(sys.value)} else {})
  }

  lemma {:induction false} ResolveRestores(store: Store, d: Depths, b: Broken, url: string, pub: Option<string>,
      sys: Option<string>, topics: set<Topic>, S: set<string>, rank: map<string, nat>)
    requires d.Keys == store.Keys && url in S && Ranked(store, S, rank, topics) && Topics(pub, sys) <= topics
    requires Roomy(store, d, S, rank, rank[url] + 1)
    ensures RunResolve(store, d, b, url, pub, sys).depth == d
    decreases rank[url], 3, 0
  {
    Entering(store, d, b, url, pub, sys);
    EnteredRestores(store, d[url := d[url] + 1], b, url, pub, sys, topics, S, rank);
    RaisedAndDropped(d, url);
  }

  lemma {:induction false} EnteredRestores(store: Store, e: Depths, b: Broken, url: string, pub: Option<string>,
      sys: Option<string>, topics: set<Topic>, S: set<string>, rank: map<string, nat>)
    requires e.Keys == store.Keys && url in S && Ranked(store, S, rank, topics) && Topics(pub, sys) <= topics
    requires Roomy(store, e, S, rank, rank[url]) && e[url] <= MAX_CATAL_DEPTH
    ensures RunEntered(store, e, b, url, pub, sys).0.depth == e && !RunEntered(store, e, b, url, pub, sys).1
    decreases rank[url], 2, 0
  {
    if sys.Some? { DelegatesRestore(store, e, b, url, OfSystem(sys.value), 0, [], topics, S, rank); }
    if pub.Some? { DelegatesRestore(store, e, b, url, OfPublic(pub.value), 0, [], topics, S, rank); }
    NextRestores(store, e, b, url, pub, sys, topics, S, rank, 0);
  }

  lemma {:induction false} AskRestores(store: Store, e: Depths, b: Broken, url: string, i: nat, pub: Option<string>,
      sys: Option<string>, topics: set<Topic>, S: set<string>, rank: map<string, nat>)
    requires e.Keys == store.Keys && url in S && Ranked(store, S, rank, topics) && Topics(pub, sys) <= topics
    requires Roomy(store, e, S, rank, rank[url]) && i < |store[url]| && IsReference(store[url][i])
    requires store[url][i].url in store ==> Leads(store, url, i, topics)
    ensures RunAsk(store, e, b, url, i, pub, sys).depth == e
    decreases rank[url], 0, 0
  {
    var v := store[url][i].url;
    if Loads(store, v) { ResolveRestores(store, e, b, v, pub, sys, topics, S, rank); }
  }

  lemma {:induction false} DelegatesRestore(store: Store, e: Depths, b: Broken, url: string, t: Topic, i: nat,
      table: seq<string>, topics: set<Topic>, S: set<string>, rank: map<string, nat>)
    requires e.Keys == store.Keys && url in S && Ranked(store, S, rank, topics) && t in topics
    requires Roomy(store, e, S, rank, rank[url]) && i <= |store[url]|
    ensures RunDelegates(store, e, b, url, t, i, table).depth == e
    decreases rank[url], 1, |store[url]| - i
  {
    if i < |store[url]| {
      if !Active(url, i, store[url][i], b, t) || store[url][i].url in table {
        DelegatesRestore(store, e, b, url, t, i + 1, table, topics, S, rank);
      } else {
        AskRestores(store, e, b, url, i, PubOf(t), SysOf(t), topics, S, rank);
        var o := RunAsk(store, e, b, url, i, PubOf(t), SysOf(t));
        DelegatesRestore(store, e, o.broken, url, t, i + 1, Recorded(table, store[url][i].url), topics, S, rank);
      }
    }
  }

  lemma {:induction false} NextRestores(store: Store, e: Depths, b: Broken, url: string, pub: Option<string>,
      sys: Option<string>, topics: set<Topic>, S: set<string>, rank: map<string, nat>, i: nat)
    requires e.Keys == store.Keys && url in S && Ranked(store, S, rank, topics) && Topics(pub, sys) <= topics
    requires Roomy(store, e, S, rank, rank[url]) && i <= |store[url]| && e[url] <= MAX_CATAL_DEPTH
    ensures RunNext(store, e, b, url, pub, sys, i).0.depth == e && !RunNext(store, e, b, url, pub, sys, i).1
    decreases rank[url], 1, |store[url]| - i
  {
    if i < |store[url]| {
      if !(store[url][i].kind.NextCatalog? && (url, i) !in b) {
        NextRestores(store, e, b, url, pub, sys, topics, S, rank, i + 1);
      } else {
        AskRestores(store, e, b, url, i, pub, sys, topics, S, rank);
        var o := RunAsk(store, e, b, url, i, pub, sys);
        NextRestores(store, e, o.broken, url, pub, sys, topics, S, rank, i + 1);
      }
    }
  }

  /** Whatever is answered, the counters are restored if from the file on neither next catalogs nor delegates
      that apply to the question run in a circle; the rest of the store may. */
  lemma RestoredIfChainsEnd(store: Store, d: Depths, b: Broken, url: string, pub: Option<string>, sys: Option<string>)
    requires d.Keys == store.Keys && url in store && AtMost(store, d, MAX_CATAL_DEPTH - 1)
    requires !Endless(store, url, Topics(pub, sys))
    ensures RunResolve(store, d, b, url, pub, sys).depth == d
  {
    var S, rank := Ranking(store, url, Topics(pub, sys));
    ResolveRestores(store, d, b, url, pub, sys, Topics(pub, sys), S, rank);
  }

  // ----- the shortest circle

  /** A file whose one entry continues with the file itself: its counter is left at the limit, after
      which the file is not looked at any more. */
  lemma {:induction false} SelfLoop(store: Store, d: Depths, b: Broken, url: string, pub: Option<string>,
      sys: Option<string>)
    requires d.Keys == store.Keys && url in store && AllMissing(store, b) && (pub.Some? || sys.Some?)
    requires |store[url]| == 1 && store[url][0].kind.NextCatalog? && store[url][0].url == url
    requires d[url] <= MAX_CATAL_DEPTH
    ensures var o := RunResolve(store, d, b, url, pub, sys);
            && o.answer.NotFound? && o.depth == d[url := MAX_CATAL_DEPTH + 1] && o.broken == b
            && forall c, p, s :: RunResolve(store, o.depth, c, url, p, s) == Idle(o.depth, c)
    decreases MAX_CATAL_DEPTH - d[url]
  {
    var e := d[url := d[url] + 1];
    if d[url] < MAX_CATAL_DEPTH {
      SelfLoop(store, e, b, url, pub, sys);
      assert e[url := MAX_CATAL_DEPTH + 1] == d[url := MAX_CATAL_DEPTH + 1];
    }
    LoopTurn(store, d, b, url, pub, sys);
  }

  /** One level of that loop: the answer below is passed on, and so are the counters. */
  lemma LoopTurn(store: Store, d: Depths, b: Broken, url: string, pub: Option<string>, sys: Option<string>)
    requires d.Keys == store.Keys && url in store && AllMissing(store, b) && (pub.Some? || sys.Some?)
    requires |store[url]| == 1 && store[url][0].kind.NextCatalog? && store[url][0].url == url
    requires d[url] <= MAX_CATAL_DEPTH
    requires var below := RunResolve(store, d[url := d[url] + 1], b, url, pub, sys);
             below.answer.NotFound? && below.depth[url] > MAX_CATAL_DEPTH
    ensures Same(RunResolve(store, d, b, url, pub, sys), RunResolve(store, d[url := d[url] + 1], b, url, pub, sys))
  {
    var e := d[url := d[url] + 1];
    var u := store[url][0].url;
    assert (url, 0) !in b;
    OnlyNext(store, e, b, url, pub, sys);
    FreeShrinks(store, d, e);
    var o := RunAsk(store, e, b, url, 0, pub, sys);
    assert o == RunResolve(store, e, b, url, pub, sys);
    assert RunNext(store, e, b, url, pub, sys, 0) == (o, true);
  }

  /** A file with nothing but a next catalog has nothing to say itself. */
  lemma OnlyNext(store: Store, d: Depths, b: Broken, url: string, pub: Option<string>, sys: Option<string>)
    requires d.Keys == store.Keys && url in store && (pub.Some? || sys.Some?)
    requires |store[url]| == 1 && store[url][0].kind.NextCatalog?
    ensures RunEntered(store, d, b, url, pub, sys) == RunNext(store, d, b, url, pub, sys, 0)
  {
    var es := store[url];
    if sys.Some? {
      assert First(es, System, sys.value).None? && Best(es, sys.value).None?;
      assert !AnyActive(url, es, b, OfSystem(sys.value));
    }
    if pub.Some? { assert First(es, Public, pub.value).None? && !AnyActive(url, es, b, OfPublic(pub.value)); }
  }
}
