/** Which entries of a catalog matter to a question, in terms of names and prefixes. */
module CatalogEntries {
  import opened Strings
  import opened PublicId
  import opened CatalogSpec
  import opened CatalogRun

  // ----- entries without a say

  /** Nothing in the entry concerns the identifiers asked for. */
  predicate NoSay(e: Entry, pub: Option<string>, sys: Option<string>)
  {
    match e.kind
    case System => sys != Some(e.name)
    case Public => pub != Some(e.name)
    case RewriteSystem => !(sys.Some? && e.name != "" && e.name <= sys.value)
    case DelegateSystem => !(sys.Some? && e.name <= sys.value)
    case DelegatePublic => !(pub.Some? && e.preferPublic && e.name <= pub.value)
    case NextCatalog => false
    case Catalog => true
    case Other => true
  }

  /** The same entries in the same places, except those without a say. */
  ghost predicate SameButIdle(es: seq<Entry>, fs: seq<Entry>, pub: Option<string>, sys: Option<string>)
  {
    && |es| == |fs|
    && forall i :: 0 <= i < |es| ==> es[i] == fs[i] || (NoSay(es[i], pub, sys) && NoSay(fs[i], pub, sys))
  }

  ghost predicate SameStores(s: Store, t: Store, pub: Option<string>, sys: Option<string>)
  {
    s.Keys == t.Keys && forall u :: u in s ==> SameButIdle(s[u], t[u], pub, sys)
  }

  /** A question about fewer identifiers leaves more entries without a say. */
  lemma FewerIdentifiers(s: Store, t: Store, pub: Option<string>, sys: Option<string>)
    requires SameStores(s, t, pub, sys)
    ensures SameStores(s, t, pub, None) && SameStores(s, t, None, sys)
  {
  }

  lemma PrefixTest(s: string, p: string)
    ensures StartsWith(s, p) <==> p <= s
  {
  }

  lemma IdleDelegate(e: Entry, t: Topic)
    requires NoSay(e, PubOf(t), SysOf(t))
    ensures !Delegates(e, t) && !e.kind.NextCatalog?
  {
    PrefixTest(t.id, e.name);
  }

  lemma {:induction false} SameFirst(es: seq<Entry>, fs: seq<Entry>, kind: Kind, id: string)
    requires |es| == |fs| && forall i :: 0 <= i < |es| ==> (Matches(es[i], kind, id) <==> Matches(fs[i], kind, id))
    ensures First(es, kind, id) == First(fs, kind, id)
  {
    if es != [] {
      forall i | 0 <= i < |es| - 1 ensures Matches(es[1..][i], kind, id) <==> Matches(fs[1..][i], kind, id) {
        assert es[1..][i] == es[i + 1] && fs[1..][i] == fs[i + 1];
      }
      SameFirst(es[1..], fs[1..], kind, id);
    }
  }

  lemma SameBest(es: seq<Entry>, fs: seq<Entry>, pub: Option<string>, sys: string)
    requires SameButIdle(es, fs, pub, Some(sys))
    ensures Best(es, sys) == Best(fs, sys)
    ensures Best(es, sys).Some? ==> es[Best(es, sys).value] == fs[Best(es, sys).value]
  {
    forall i | 0 <= i < |es|
      ensures Rewrites(es[i], sys) <==> Rewrites(fs[i], sys)
      ensures Rewrites(es[i], sys) ==> es[i] == fs[i]
    {
      PrefixTest(sys, es[i].name);
      PrefixTest(sys, fs[i].name);
    }
    if Best(es, sys).Some? {
      assert BestRewrite(fs, sys, Best(es, sys).value);
      BestIs(fs, sys, Best(es, sys).value);
    } else if Best(fs, sys).Some? {
      assert BestRewrite(es, sys, Best(fs, sys).value);
    }
  }

  lemma ActiveIsSame(url: string, es: seq<Entry>, fs: seq<Entry>, i: nat, b: Broken, t: Topic)
    requires SameButIdle(es, fs, PubOf(t), SysOf(t)) && i < |es|
    ensures Active(url, i, es[i], b, t) <==> Active(url, i, fs[i], b, t)
    ensures Active(url, i, es[i], b, t) ==> es[i] == fs[i]
  {
    if es[i] != fs[i] {
      IdleDelegate(es[i], t);
      IdleDelegate(fs[i], t);
    }
  }

  lemma SameActive(url: string, es: seq<Entry>, fs: seq<Entry>, b: Broken, t: Topic)
    requires SameButIdle(es, fs, PubOf(t), SysOf(t))
    ensures AnyActive(url, es, b, t) <==> AnyActive(url, fs, b, t)
  {
    forall i | 0 <= i < |es| ensures Active(url, i, es[i], b, t) <==> Active(url, i, fs[i], b, t) {
      ActiveIsSame(url, es, fs, i, b, t);
    }
  }

  // ----- they do not matter

  lemma {:induction false} SameResolve(s: Store, t: Store, d: Depths, b: Broken, url: string, pub: Option<string>,
      sys: Option<string>)
    requires SameStores(s, t, pub, sys) && d.Keys == s.Keys && url in s
    ensures RunResolve(s, d, b, url, pub, sys) == RunResolve(t, d, b, url, pub, sys)
    decreases Free(s, d), 1, 0
  {
    if d[url] <= MAX_CATAL_DEPTH {
      var e := d[url := d[url] + 1];
      FreeShrinks(s, d, e);
      SameEntered(s, t, e, b, url, pub, sys);
    }
  }

  lemma {:induction false} SameEntered(s: Store, t: Store, d: Depths, b: Broken, url: string, pub: Option<string>,
      sys: Option<string>)
    requires SameStores(s, t, pub, sys) && d.Keys == s.Keys && url in s
    ensures RunEntered(s, d, b, url, pub, sys) == RunEntered(t, d, b, url, pub, sys)
    decreases Free(s, d), 6, 0
  {
    FewerIdentifiers(s, t, pub, sys);
    if sys.Some? { SameSystem(s, t, d, b, url, sys.value); }
    if pub.Some? { SamePublic(s, t, d, b, url, pub.value); }
    SameNext(s, t, d, b, url, pub, sys, 0);
  }

  lemma {:induction false} SameSystem(s: Store, t: Store, d: Depths, b: Broken, url: string, sys: string)
    requires SameStores(s, t, None, Some(sys)) && d.Keys == s.Keys && url in s
    ensures RunSystem(s, d, b, url, sys) == RunSystem(t, d, b, url, sys)
    decreases Free(s, d), 5, 0
  {
    SameFirst(s[url], t[url], System, sys);
    SameBest(s[url], t[url], None, sys);
    SameActive(url, s[url], t[url], b, OfSystem(sys));
    SameDelegates(s, t, d, b, url, OfSystem(sys), 0, []);
  }

  lemma {:induction false} SamePublic(s: Store, t: Store, d: Depths, b: Broken, url: string, pub: string)
    requires SameStores(s, t, Some(pub), None) && d.Keys == s.Keys && url in s
    ensures RunPublic(s, d, b, url, pub) == RunPublic(t, d, b, url, pub)
    decreases Free(s, d), 5, 0
  {
    SameFirst(s[url], t[url], Public, pub);
    SameActive(url, s[url], t[url], b, OfPublic(pub));
    SameDelegates(s, t, d, b, url, OfPublic(pub), 0, []);
  }

  lemma {:induction false} SameDelegates(s: Store, t: Store, d: Depths, b: Broken, url: string, topic: Topic, i: nat,
      table: seq<string>)
    requires SameStores(s, t, PubOf(topic), SysOf(topic)) && d.Keys == s.Keys && url in s && i <= |s[url]|
    ensures RunDelegates(s, d, b, url, topic, i, table) == RunDelegates(t, d, b, url, topic, i, table)
    decreases Free(s, d), 4, |s[url]| - i, 2
  {
    if i < |s[url]| {
      ActiveIsSame(url, s[url], t[url], i, b, topic);
      if !Active(url, i, s[url][i], b, topic) || s[url][i].url in table {
        SameDelegates(s, t, d, b, url, topic, i + 1, table);
      } else {
        SameDelegateAsked(s, t, d, b, url, topic, i, table);
      }
    }
  }

  lemma {:induction false} SameDelegateAsked(s: Store, t: Store, d: Depths, b: Broken, url: string, topic: Topic,
      i: nat, table: seq<string>)
    requires SameStores(s, t, PubOf(topic), SysOf(topic)) && d.Keys == s.Keys && url in s && i < |s[url]|
    requires s[url][i] == t[url][i] && Active(url, i, s[url][i], b, topic) && s[url][i].url !in table
    ensures RunDelegates(s, d, b, url, topic, i, table) == RunDelegates(t, d, b, url, topic, i, table)
    decreases Free(s, d), 4, |s[url]| - i, 1
  {
    SameAsk(s, t, d, b, url, i, PubOf(topic), SysOf(topic));
    var o := RunAsk(s, d, b, url, i, PubOf(topic), SysOf(topic));
    if o.answer.NotFound? {
      FreeShrinks(s, d, o.depth);
      SameDelegatesOn(s, t, d, o, url, topic, i, Recorded(table, s[url][i].url));
    }
  }

  lemma {:induction false} SameDelegatesOn(s: Store, t: Store, d: Depths, o: Outcome, url: string, topic: Topic,
      i: nat, table: seq<string>)
    requires SameStores(s, t, PubOf(topic), SysOf(topic)) && d.Keys == s.Keys && url in s && i < |s[url]|
    requires o.depth.Keys == s.Keys && Free(s, o.depth) <= Free(s, d)
    ensures RunDelegates(s, o.depth, o.broken, url, topic, i + 1, table)
         == RunDelegates(t, o.depth, o.broken, url, topic, i + 1, table)
    decreases Free(s, d), 4, |s[url]| - i, 0
  {
    SameDelegates(s, t, o.depth, o.broken, url, topic, i + 1, table);
  }

  lemma {:induction false} SameAsk(s: Store, t: Store, d: Depths, b: Broken, url: string, i: nat, pub: Option<string>,
      sys: Option<string>)
    requires SameStores(s, t, pub, sys) && d.Keys == s.Keys && url in s && i < |s[url]| && IsReference(s[url][i])
    requires s[url][i] == t[url][i]
    ensures RunAsk(s, d, b, url, i, pub, sys) == RunAsk(t, d, b, url, i, pub, sys)
    decreases Free(s, d), 2, 0
  {
    var u := s[url][i].url;
    if Loads(s, u) { SameResolve(s, t, d, b, u, pub, sys); }
  }

  lemma {:induction false} SameNext(s: Store, t: Store, d: Depths, b: Broken, url: string, pub: Option<string>,
      sys: Option<string>, i: nat)
    requires SameStores(s, t, pub, sys) && d.Keys == s.Keys && url in s && i <= |s[url]|
    ensures RunNext(s, d, b, url, pub, sys, i) == RunNext(t, d, b, url, pub, sys, i)
    decreases Free(s, d), 4, |s[url]| - i
  {
    if i < |s[url]| {
      var e := s[url][i];
      if !(e.kind.NextCatalog? && (url, i) !in b) {
        SameNext(s, t, d, b, url, pub, sys, i + 1);
      } else {
        SameAsk(s, t, d, b, url, i, pub, sys);
        var o := RunAsk(s, d, b, url, i, pub, sys);
        if o.answer.NotFound? && !(e.url in s && o.depth[url] > MAX_CATAL_DEPTH) {
          FreeShrinks(s, d, o.depth);
          SameNext(s, t, o.depth, o.broken, url, pub, sys, i + 1);
        }
      }
    }
  }

  /** An entry that does not concern the identifiers asked for may as well be of no known kind, in any
      store: the answer, the counters and the marks are the same. */
  lemma IdleEntry(store: Store, d: Depths, b: Broken, url: string, pub: Option<string>, sys: Option<string>,
                  file: string, i: nat)
    requires d.Keys == store.Keys && url in store && file in store && i < |store[file]|
    requires NoSay(store[file][i], pub, sys)
    ensures var other := store[file := store[file][i := store[file][i].(kind := Other)]];
            other.Keys == store.Keys && RunResolve(other, d, b, url, pub, sys) == RunResolve(store, d, b, url, pub, sys)
  {
    var other := store[file := store[file][i := store[file][i].(kind := Other)]];
    assert other.Keys == store.Keys;
    SameResolve(store, other, d, b, url, pub, sys);
  }

  // ----- and those that do

  /** No entry of the file is for exactly that system identifier, and no rewrite rule is for it. */
  ghost predicate NoSystemEntry(es: seq<Entry>, sys: string)
  {
    forall i :: 0 <= i < |es| ==>
      && !(es[i].kind.System? && es[i].name == sys)
      && !(es[i].kind.RewriteSystem? && es[i].name != "" && es[i].name <= sys)
  }

  predicate SystemDelegate(e: Entry, sys: string) { e.kind.DelegateSystem? && e.name <= sys }
  predicate PublicDelegate(e: Entry, pub: string) { e.kind.DelegatePublic? && e.preferPublic && e.name <= pub }

  lemma NoneApplies(es: seq<Entry>, sys: string)
    requires NoSystemEntry(es, sys)
    ensures First(es, System, sys).None? && Best(es, sys).None?
  {
    forall i | 0 <= i < |es| ensures !Rewrites(es[i], sys) { PrefixTest(sys, es[i].name); }
  }

  /** Delegates none of whose files can be loaded find nothing. */
  lemma {:induction false} NoneLoads(store: Store, d: Depths, b: Broken, url: string, t: Topic, i: nat,
      table: seq<string>)
    requires d.Keys == store.Keys && url in store && i <= |store[url]|
    requires forall j :: 0 <= j < |store[url]| && Delegates(store[url][j], t) ==> store[url][j].url !in store
    ensures RunDelegates(store, d, b, url, t, i, table).answer.NotFound?
    decreases Free(store, d), 4, |store[url]| - i
  {
    if i < |store[url]| {
      var e := store[url][i];
      if !Active(url, i, e, b, t) || e.url in table {
        NoneLoads(store, d, b, url, t, i + 1, table);
      } else {
        NoneLoads(store, d, b + {(url, i)}, url, t, i + 1, Recorded(table, e.url));
      }
    }
  }

  /** What the steps for a system identifier answer is the answer, whatever else is asked for. */
  lemma BySystem(store: Store, d: Depths, b: Broken, url: string, pub: Option<string>, sys: string)
    requires d.Keys == store.Keys && url in store && d[url] <= MAX_CATAL_DEPTH
    ensures var r := RunSystem(store, d[url := d[url] + 1], b, url, sys);
            r.Some? ==>
              var o := RunResolve(store, d, b, url, pub, Some(sys));
              o == Left(store, d, url, r.value, false) && o.answer == r.value.answer
  {
  }

  lemma ByPublic(store: Store, d: Depths, b: Broken, url: string, pub: string)
    requires d.Keys == store.Keys && url in store && d[url] <= MAX_CATAL_DEPTH
    ensures var r := RunPublic(store, d[url := d[url] + 1], b, url, pub);
            r.Some? ==> RunResolve(store, d, b, url, Some(pub), None).answer == r.value.answer
  {
  }

  lemma {:induction false} FirstIs(es: seq<Entry>, kind: Kind, id: string, i: nat)
    requires i < |es| && Matches(es[i], kind, id) && forall j :: 0 <= j < i ==> !Matches(es[j], kind, id)
    ensures First(es, kind, id) == Some(i)
  {
    var r := First(es, kind, id);
    assert r.Some? && r.value == i;
  }

  lemma SystemDelegation(store: Store, e: Depths, b: Broken, url: string, sys: string, i: nat)
    requires e.Keys == store.Keys && url in store && NoSystemEntry(store[url], sys)
    requires i < |store[url]| && SystemDelegate(store[url][i], sys) && (url, i) !in b
    ensures var r := RunSystem(store, e, b, url, sys);
            && r.Some?
            && ((forall j :: 0 <= j < |store[url]| && SystemDelegate(store[url][j], sys) ==>
              store[url][j].url !in store)
                ==> r.value.answer == Cut(url, OfSystem(sys)))
  {
    var t := OfSystem(sys);
    NoneApplies(store[url], sys);
    PrefixTest(sys, store[url][i].name);
    assert Active(url, i, store[url][i], b, t);
    if forall j :: 0 <= j < |store[url]| && SystemDelegate(store[url][j], sys) ==> store[url][j].url !in store {
      forall j | 0 <= j < |store[url]| && Delegates(store[url][j], t) ensures store[url][j].url !in store {
        PrefixTest(sys, store[url][j].name);
      }
      NoneLoads(store, e, b, url, t, 0, []);
    }
  }

  lemma PublicDelegation(store: Store, e: Depths, b: Broken, url: string, pub: string, i: nat)
    requires e.Keys == store.Keys && url in store
    requires forall j :: 0 <= j < |store[url]| ==> !(store[url][j].kind.Public? && store[url][j].name == pub)
    requires i < |store[url]| && PublicDelegate(store[url][i], pub) && (url, i) !in b
    ensures var r := RunPublic(store, e, b, url, pub);
            && r.Some?
            && ((forall j :: 0 <= j < |store[url]| && PublicDelegate(store[url][j], pub) ==>
              store[url][j].url !in store)
                ==> r.value.answer == Cut(url, OfPublic(pub)))
  {
    var t := OfPublic(pub);
    assert First(store[url], Public, pub).None?;
    PrefixTest(pub, store[url][i].name);
    assert Active(url, i, store[url][i], b, t);
    if forall j :: 0 <= j < |store[url]| && PublicDelegate(store[url][j], pub) ==> store[url][j].url !in store {
      forall j | 0 <= j < |store[url]| && Delegates(store[url][j], t) ensures store[url][j].url !in store {
        PrefixTest(pub, store[url][j].name);
      }
      NoneLoads(store, e, b, url, t, 0, []);
    }
  }

  /** With no exact entry and no rewrite rule, a system delegate whose name begins the identifier, and that
      has not been marked, keeps the public entries and the next catalogs from being asked; if no such
      delegate can be loaded the lookup is cut off. */
  lemma SystemDelegateDecides(store: Store, d: Depths, b: Broken, url: string, pub: Option<string>, sys: string, i: nat)
    requires d.Keys == store.Keys && url in store && d[url] <= MAX_CATAL_DEPTH && NoSystemEntry(store[url], sys)
    requires i < |store[url]| && SystemDelegate(store[url][i], sys) && (url, i) !in b
    ensures var o := RunResolve(store, d, b, url, pub, Some(sys));
            && !o.answer.NotFound? && o == RunResolve(store, d, b, url, None, Some(sys))
            && ((forall j :: 0 <= j < |store[url]| && SystemDelegate(store[url][j], sys) ==>
              store[url][j].url !in store)
                ==> o.answer == Cut(url, OfSystem(sys)))
  {
    SystemDelegation(store, d[url := d[url] + 1], b, url, sys, i);
    BySystem(store, d, b, url, pub, sys);
    BySystem(store, d, b, url, None, sys);
  }

  /** Likewise for public delegates that are preferred, when no system identifier is asked for. */
  lemma PublicDelegateDecides(store: Store, d: Depths, b: Broken, url: string, pub: string, i: nat)
    requires d.Keys == store.Keys && url in store && d[url] <= MAX_CATAL_DEPTH
    requires forall j :: 0 <= j < |store[url]| ==> !(store[url][j].kind.Public? && store[url][j].name == pub)
    requires i < |store[url]| && PublicDelegate(store[url][i], pub) && (url, i) !in b
    ensures var o := RunResolve(store, d, b, url, Some(pub), None);
            && !o.answer.NotFound?
            && ((forall j :: 0 <= j < |store[url]| && PublicDelegate(store[url][j], pub) ==>
              store[url][j].url !in store)
                ==> o.answer == Cut(url, OfPublic(pub)))
  {
    PublicDelegation(store, d[url := d[url] + 1], b, url, pub, i);
    ByPublic(store, d, b, url, pub);
  }

  /** The first entry for exactly the system identifier answers, wherever it stands. */
  lemma ExactSystemDecides(store: Store, d: Depths, b: Broken, url: string, pub: Option<string>, sys: string, i: nat)
    requires d.Keys == store.Keys && url in store && d[url] <= MAX_CATAL_DEPTH && i < |store[url]|
    requires store[url][i].kind.System? && store[url][i].name == sys
    requires forall j :: 0 <= j < i ==> !(store[url][j].kind.System? && store[url][j].name == sys)
    ensures RunResolve(store, d, b, url, pub, Some(sys)).answer == Found(store[url][i].url)
  {
    FirstIs(store[url], System, sys, i);
    BySystem(store, d, b, url, pub, sys);
  }

  /** Otherwise the longest rewrite prefix, the first of those, has its part replaced. */
  lemma RewriteDecides(store: Store, d: Depths, b: Broken, url: string, pub: Option<string>, sys: string, i: nat)
    requires d.Keys == store.Keys && url in store && d[url] <= MAX_CATAL_DEPTH && i < |store[url]|
    requires forall j :: 0 <= j < |store[url]| ==> !(store[url][j].kind.System? && store[url][j].name == sys)
    requires store[url][i].kind.RewriteSystem? && store[url][i].name != "" && store[url][i].name <= sys
    requires forall j :: 0 <= j < |store[url]| && store[url][j].kind.RewriteSystem? && store[url][j].name != ""
                         && store[url][j].name <= sys ==>
               |store[url][j].name| < |store[url][i].name| || (|store[url][j].name| == |store[url][i].name| && i <= j)
    ensures RunResolve(store, d, b, url, pub, Some(sys)).answer ==
            Found(store[url][i].url + sys[|store[url][i].name|..])
  {
    var es := store[url];
    assert First(es, System, sys).None?;
    forall j | 0 <= j < |es|
      ensures Rewrites(es[j], sys) <==> es[j].kind.RewriteSystem? && es[j].name != "" && es[j].name <= sys
    {
      PrefixTest(sys, es[j].name);
    }
    assert BestRewrite(es, sys, i);
    BestIs(es, sys, i);
    BySystem(store, d, b, url, pub, sys);
  }

  /** The first entry for exactly the public identifier answers, when no system identifier is asked for. */
  lemma ExactPublicDecides(store: Store, d: Depths, b: Broken, url: string, pub: string, i: nat)
    requires d.Keys == store.Keys && url in store && d[url] <= MAX_CATAL_DEPTH && i < |store[url]|
    requires store[url][i].kind.Public? && store[url][i].name == pub
    requires forall j :: 0 <= j < i ==> !(store[url][j].kind.Public? && store[url][j].name == pub)
    ensures RunResolve(store, d, b, url, Some(pub), None).answer == Found(store[url][i].url)
  {
    FirstIs(store[url], Public, pub, i);
    ByPublic(store, d, b, url, pub);
  }

  // ----- what the files that entries refer to are asked

  lemma {:induction false} PassedBy(store: Store, d: Depths, b: Broken, url: string, t: Topic, k: nat, i: nat)
    requires d.Keys == store.Keys && url in store && k <= i <= |store[url]|
    requires forall j :: 0 <= j < i ==> !Active(url, j, store[url][j], b, t)
    ensures RunDelegates(store, d, b, url, t, k, []) == RunDelegates(store, d, b, url, t, i, [])
    decreases i - k
  {
    if k < i { PassedBy(store, d, b, url, t, k + 1, i); }
  }

  lemma FirstAsked(store: Store, e: Depths, b: Broken, url: string, t: Topic, i: nat)
    requires e.Keys == store.Keys && url in store && i < |store[url]| && Active(url, i, store[url][i], b, t)
    requires forall j :: 0 <= j < i ==> !Active(url, j, store[url][j], b, t)
    requires store[url][i].url in store && store[store[url][i].url] != []
    ensures var o := RunResolve(store, e, b, store[url][i].url, PubOf(t), SysOf(t));
            !o.answer.NotFound? ==> RunDelegates(store, e, b, url, t, 0, []) == o
  {
    PassedBy(store, e, b, url, t, 0, i);
  }

  /** The first of the system delegates is asked for the system identifier, and for that only; what it
      finds is the answer. */
  lemma SystemDelegateAsked(store: Store, d: Depths, b: Broken, url: string, pub: Option<string>, sys: string, i: nat)
    requires d.Keys == store.Keys && url in store && d[url] <= MAX_CATAL_DEPTH && NoSystemEntry(store[url], sys)
    requires i < |store[url]| && SystemDelegate(store[url][i], sys) && (url, i) !in b
    requires forall j :: 0 <= j < i ==> !(SystemDelegate(store[url][j], sys) && (url, j) !in b)
    requires store[url][i].url in store && store[store[url][i].url] != []
    ensures var o := RunResolve(store, d[url := d[url] + 1], b, store[url][i].url, None, Some(sys));
            !o.answer.NotFound? ==> RunResolve(store, d, b, url, pub, Some(sys)).answer == o.answer
  {
    var t := OfSystem(sys);
    NoneApplies(store[url], sys);
    forall j | 0 <= j < |store[url]| ensures Delegates(store[url][j], t) <==> SystemDelegate(store[url][j], sys) {
      PrefixTest(sys, store[url][j].name);
    }
    assert Active(url, i, store[url][i], b, t);
    FirstAsked(store, d[url := d[url] + 1], b, url, t, i);
    BySystem(store, d, b, url, pub, sys);
  }

  /** Likewise the first of the public delegates, for the public identifier. */
  lemma PublicDelegateAsked(store: Store, d: Depths, b: Broken, url: string, pub: string, i: nat)
    requires d.Keys == store.Keys && url in store && d[url] <= MAX_CATAL_DEPTH
    requires forall j :: 0 <= j < |store[url]| ==> !(store[url][j].kind.Public? && store[url][j].name == pub)
    requires i < |store[url]| && PublicDelegate(store[url][i], pub) && (url, i) !in b
    requires forall j :: 0 <= j < i ==> !(PublicDelegate(store[url][j], pub) && (url, j) !in b)
    requires store[url][i].url in store && store[store[url][i].url] != []
    ensures var o := RunResolve(store, d[url := d[url] + 1], b, store[url][i].url, Some(pub), None);
            !o.answer.NotFound? ==> RunResolve(store, d, b, url, Some(pub), None).answer == o.answer
  {
    var t := OfPublic(pub);
    assert First(store[url], Public, pub).None?;
    forall j | 0 <= j < |store[url]| ensures Delegates(store[url][j], t) <==> PublicDelegate(store[url][j], pub) {
      PrefixTest(pub, store[url][j].name);
    }
    assert Active(url, i, store[url][i], b, t);
    FirstAsked(store, d[url := d[url] + 1], b, url, t, i);
    ByPublic(store, d, b, url, pub);
  }

  lemma {:induction false} NextPassedBy(store: Store, d: Depths, b: Broken, url: string, pub: Option<string>,
      sys: Option<string>, k: nat, i: nat)
    requires d.Keys == store.Keys && url in store && k <= i <= |store[url]|
    requires forall j :: 0 <= j < i ==> !(store[url][j].kind.NextCatalog? && (url, j) !in b)
    ensures RunNext(store, d, b, url, pub, sys, k) == RunNext(store, d, b, url, pub, sys, i)
    decreases i - k
  {
    if k < i { NextPassedBy(store, d, b, url, pub, sys, k + 1, i); }
  }

  /** The entries of a file that neither answer nor delegate. */
  ghost predicate OnlyNext(es: seq<Entry>)
  {
    forall j :: 0 <= j < |es| ==> es[j].kind.NextCatalog? || es[j].kind.Other?
  }

  lemma NothingElse(store: Store, e: Depths, b: Broken, url: string, pub: Option<string>, sys: Option<string>)
    requires e.Keys == store.Keys && url in store && OnlyNext(store[url])
    ensures sys.Some? ==> RunSystem(store, e, b, url, sys.value).None?
    ensures pub.Some? ==> RunPublic(store, e, b, url, pub.value).None?
  {
    if sys.Some? { NoneApplies(store[url], sys.value); }
  }

  lemma NextAnswer(store: Store, e: Depths, b: Broken, url: string, pub: Option<string>, sys: Option<string>, i: nat)
    requires e.Keys == store.Keys && url in store && i < |store[url]|
    requires store[url][i].kind.NextCatalog? && (url, i) !in b
    requires forall j :: 0 <= j < i ==> !(store[url][j].kind.NextCatalog? && (url, j) !in b)
    requires store[url][i].url in store && store[store[url][i].url] != []
    ensures var o := RunResolve(store, e, b, store[url][i].url, pub, sys);
            !o.answer.NotFound? ==> RunNext(store, e, b, url, pub, sys, 0) == (o, false)
  {
    NextPassedBy(store, e, b, url, pub, sys, 0, i);
  }

  lemma ByNext(store: Store, d: Depths, b: Broken, url: string, pub: Option<string>, sys: Option<string>)
    requires d.Keys == store.Keys && url in store && d[url] <= MAX_CATAL_DEPTH && (pub.Some? || sys.Some?)
    requires OnlyNext(store[url])
    ensures RunResolve(store, d, b, url, pub, sys).answer ==
            RunNext(store, d[url := d[url] + 1], b, url, pub, sys, 0).0.answer
  {
    NothingElse(store, d[url := d[url] + 1], b, url, pub, sys);
  }

  /** The first next catalog is asked for both identifiers, and what it finds is the answer. */
  lemma NextAsked(store: Store, d: Depths, b: Broken, url: string, pub: Option<string>, sys: Option<string>, i: nat)
    requires d.Keys == store.Keys && url in store && d[url] <= MAX_CATAL_DEPTH && (pub.Some? || sys.Some?)
    requires OnlyNext(store[url]) && i < |store[url]| && store[url][i].kind.NextCatalog? && (url, i) !in b
    requires forall j :: 0 <= j < i ==> !(store[url][j].kind.NextCatalog? && (url, j) !in b)
    requires store[url][i].url in store && store[store[url][i].url] != []
    ensures var o := RunResolve(store, d[url := d[url] + 1], b, store[url][i].url, pub, sys);
            !o.answer.NotFound? ==> RunResolve(store, d, b, url, pub, sys).answer == o.answer
  {
    NextAnswer(store, d[url := d[url] + 1], b, url, pub, sys, i);
    ByNext(store, d, b, url, pub, sys);
  }
}
