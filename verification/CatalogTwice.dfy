/** Asking a catalog the same question again: which answers stay, and exactly when a cut does. */
module CatalogTwice {
  import opened Strings
  import opened PublicId
  import opened CatalogSpec
  import opened CatalogRun
  import opened CatalogProps

  /** `c` has more marks than `b`, all of them on references without a file. */
  ghost predicate MoreMarks(store: Store, b: Broken, c: Broken)
  {
    b <= c && forall x :: x in c && x !in b ==> Missing(store, x)
  }

  // ----- with more marks

  /** A cut still has an applicable delegate behind it that is not marked. */
  ghost predicate Justified(store: Store, b: Broken, a: Answer)
  {
    a.Cut? ==> a.file in store && AnyActive(a.file, store[a.file], b, a.topic)
  }

  /** The answer stays unless it is a cut that nothing is behind any more. */
  ghost predicate Stays(store: Store, c: Broken, before: Answer, after: Answer)
  {
    (before.Cut? ==> before.file in store) && (Justified(store, c, before) ==> after == before)
  }

  ghost predicate StepStays(store: Store, c: Broken, before: Option<Answer>, after: Option<Answer>)
  {
    && (before.None? ==> after.None?)
    && (before.Some? ==>
          && (before.value.Cut? ==> before.value.file in store)
          && (Justified(store, c, before.value) ==> after == before))
    && (after.Some? ==> Justified(store, c, after.value))
  }

  lemma ActiveLess(store: Store, b: Broken, c: Broken, url: string, t: Topic)
    requires b <= c && url in store
    ensures AnyActive(url, store[url], c, t) ==> AnyActive(url, store[url], b, t)
  {
    if AnyActive(url, store[url], c, t) {
      var i :| 0 <= i < |store[url]| && Active(url, i, store[url][i], c, t);
      assert Active(url, i, store[url][i], b, t);
    }
  }

  lemma {:induction false} LookupStays(store: Store, rank: map<string, nat>, b: Broken, c: Broken, url: string,
                                       pub: Option<string>, sys: Option<string>)
    requires Acyclic(store, rank) && url in store && MoreMarks(store, b, c)
    ensures Stays(store, c, Lookup(store, rank, b, url, pub, sys), Lookup(store, rank, c, url, pub, sys))
    ensures Justified(store, c, Lookup(store, rank, c, url, pub, sys))
    decreases rank[url], 3, 0
  {
    if sys.Some? { SystemStays(store, rank, b, c, url, sys.value); }
    if pub.Some? { PublicStays(store, rank, b, c, url, pub.value); }
    NextStays(store, rank, b, c, url, pub, sys, 0);
  }

  lemma {:induction false} SystemStays(store: Store, rank: map<string, nat>, b: Broken, c: Broken, url: string,
      sys: string)
    requires Acyclic(store, rank) && url in store && MoreMarks(store, b, c)
    ensures StepStays(store, c, SystemStep(store, rank, b, url, sys), SystemStep(store, rank, c, url, sys))
    decreases rank[url], 2, 0
  {
    ActiveLess(store, b, c, url, OfSystem(sys));
    DelegatedStays(store, rank, b, c, url, OfSystem(sys), 0);
  }

  lemma {:induction false} PublicStays(store: Store, rank: map<string, nat>, b: Broken, c: Broken, url: string,
      pub: string)
    requires Acyclic(store, rank) && url in store && MoreMarks(store, b, c)
    ensures StepStays(store, c, PublicStep(store, rank, b, url, pub), PublicStep(store, rank, c, url, pub))
    decreases rank[url], 2, 0
  {
    ActiveLess(store, b, c, url, OfPublic(pub));
    DelegatedStays(store, rank, b, c, url, OfPublic(pub), 0);
  }

  /** A delegate that gave an answer has a file, so it is not among the new marks. */
  lemma {:induction false} DelegatedStays(store: Store, rank: map<string, nat>, b: Broken, c: Broken, url: string,
                                          t: Topic, i: nat)
    requires Acyclic(store, rank) && url in store && i <= |store[url]| && MoreMarks(store, b, c)
    ensures Stays(store, c, Delegated(store, rank, b, url, t, i), Delegated(store, rank, c, url, t, i))
    ensures Justified(store, c, Delegated(store, rank, c, url, t, i))
    ensures !Delegated(store, rank, b, url, t, i).NotFound? ==> AnyActive(url, store[url], c, t)
    decreases rank[url], 1, |store[url]| - i
  {
    if i < |store[url]| {
      var e := store[url][i];
      if Loads(store, e.url) && IsDelegate(e) {
        assert rank[e.url] < rank[url];
        LookupStays(store, rank, b, c, e.url, PubOf(t), SysOf(t));
        assert (url, i) in c ==> (url, i) in b;
        assert Active(url, i, e, b, t) ==> Active(url, i, e, c, t);
      }
      DelegatedStays(store, rank, b, c, url, t, i + 1);
    }
  }

  lemma {:induction false} NextStays(store: Store, rank: map<string, nat>, b: Broken, c: Broken, url: string,
                                     pub: Option<string>, sys: Option<string>, i: nat)
    requires Acyclic(store, rank) && url in store && i <= |store[url]| && MoreMarks(store, b, c)
    ensures Stays(store, c, Next(store, rank, b, url, pub, sys, i), Next(store, rank, c, url, pub, sys, i))
    ensures Justified(store, c, Next(store, rank, c, url, pub, sys, i))
    decreases rank[url], 1, |store[url]| - i
  {
    if i < |store[url]| {
      var e := store[url][i];
      if e.kind.NextCatalog? && Loads(store, e.url) {
        assert rank[e.url] < rank[url];
        LookupStays(store, rank, b, c, e.url, pub, sys);
      }
      NextStays(store, rank, b, c, url, pub, sys, i + 1);
    }
  }

  /** With more marks every answer but a cut is the same, and a cut is the same, by the same file over
      the same identifier, exactly if that file has an applicable delegate left that is not marked. */
  lemma MoreMarksExactly(store: Store, rank: map<string, nat>, b: Broken, c: Broken, url: string,
                         pub: Option<string>, sys: Option<string>)
    requires Acyclic(store, rank) && url in store && MoreMarks(store, b, c)
    ensures var before, after := Lookup(store, rank, b, url, pub, sys), Lookup(store, rank, c, url, pub, sys);
            && (!before.Cut? ==> after == before)
            && (before.Cut? ==>
                  && before.file in store
                  && (after == before <==> AnyActive(before.file, store[before.file], c, before.topic)))
  {
    LookupStays(store, rank, b, c, url, pub, sys);
  }

  // ----- which marks a cut leaves

  /** An applicable delegate without a file, and the first of its file to carry that URL. */
  predicate FirstMissing(store: Store, url: string, i: nat, t: Topic)
    requires url in store
  {
    && i < |store[url]| && Delegates(store[url][i], t) && store[url][i].url !in store
    && forall k :: 0 <= k < i && Delegates(store[url][k], t) ==> store[url][k].url != store[url][i].url
  }

  ghost predicate CutMarks(store: Store, a: Answer, c: Broken)
  {
    a.Cut? ==> a.file in store && forall i: nat :: FirstMissing(store, a.file, i, a.topic) ==> (a.file, i) in c
  }

  /** The file that cuts a lookup off, on any store, has asked all its applicable delegates: those
      without a file are marked, the first of each URL. */
  lemma {:induction false} ResolveCutMarks(store: Store, d: Depths, b: Broken, url: string, pub: Option<string>,
      sys: Option<string>)
    requires d.Keys == store.Keys && url in store
    ensures var o := RunResolve(store, d, b, url, pub, sys); CutMarks(store, o.answer, o.broken)
    decreases Free(store, d), 1, 0
  {
    if d[url] <= MAX_CATAL_DEPTH {
      var e := d[url := d[url] + 1];
      FreeShrinks(store, d, e);
      EnteredCutMarks(store, e, b, url, pub, sys);
    }
  }

  lemma {:induction false} EnteredCutMarks(store: Store, d: Depths, b: Broken, url: string, pub: Option<string>,
      sys: Option<string>)
    requires d.Keys == store.Keys && url in store
    ensures var o := RunEntered(store, d, b, url, pub, sys).0; CutMarks(store, o.answer, o.broken)
    decreases Free(store, d), 6, 0
  {
    if sys.Some? { DelegatesCutMarks(store, d, b, url, OfSystem(sys.value), 0, []); }
    if pub.Some? { DelegatesCutMarks(store, d, b, url, OfPublic(pub.value), 0, []); }
    NextCutMarks(store, d, b, url, pub, sys, 0);
  }

  lemma {:induction false} AskCutMarks(store: Store, d: Depths, b: Broken, url: string, i: nat, pub: Option<string>,
      sys: Option<string>)
    requires d.Keys == store.Keys && url in store && i < |store[url]| && IsReference(store[url][i])
    ensures var o := RunAsk(store, d, b, url, i, pub, sys); CutMarks(store, o.answer, o.broken)
    decreases Free(store, d), 2, 0
  {
    if Loads(store, store[url][i].url) { ResolveCutMarks(store, d, b, store[url][i].url, pub, sys); }
  }

  /** An applicable delegate before `i` carries that URL. */
  predicate CarriedBefore(store: Store, url: string, t: Topic, i: nat, u: string)
    requires url in store && i <= |store[url]|
  {
    exists k :: 0 <= k < i && Delegates(store[url][k], t) && store[url][k].url == u
  }

  ghost predicate MarkedFrom(store: Store, url: string, t: Topic, i: nat, c: Broken)
    requires url in store
  {
    forall j: nat :: i <= j && FirstMissing(store, url, j, t) ==> (url, j) in c
  }

  ghost predicate TableOk(store: Store, url: string, t: Topic, i: nat, table: seq<string>)
    requires url in store && i <= |store[url]|
  {
    forall u :: u in table ==> CarriedBefore(store, url, t, i, u)
  }

  lemma TableStep(store: Store, url: string, t: Topic, i: nat, table: seq<string>)
    requires url in store && i < |store[url]| && TableOk(store, url, t, i, table)
    ensures TableOk(store, url, t, i + 1, table)
    ensures Delegates(store[url][i], t) ==> TableOk(store, url, t, i + 1, Recorded(table, store[url][i].url))
    ensures store[url][i].url in table ==> !FirstMissing(store, url, i, t)
  {
    forall u | CarriedBefore(store, url, t, i, u) ensures CarriedBefore(store, url, t, i + 1, u) {
      var k :| 0 <= k < i && Delegates(store[url][k], t) && store[url][k].url == u;
    }
  }

  lemma {:induction false} DelegatesCutMarks(store: Store, d: Depths, b: Broken, url: string, t: Topic, i: nat,
      table: seq<string>)
    requires d.Keys == store.Keys && url in store && i <= |store[url]|
    requires TableOk(store, url, t, i, table)
    ensures var o := RunDelegates(store, d, b, url, t, i, table);
            && CutMarks(store, o.answer, o.broken)
            && (o.answer.NotFound? ==> MarkedFrom(store, url, t, i, o.broken))
    decreases Free(store, d), 4, |store[url]| - i
  {
    if i < |store[url]| {
      var e := store[url][i];
      if !Active(url, i, e, b, t) || e.url in table {
        TableStep(store, url, t, i, table);
        DelegatesSane(store, d, b, url, t, i + 1, table);
        DelegatesCutMarks(store, d, b, url, t, i + 1, table);
      } else {
        TableStep(store, url, t, i, table);
        AskCutMarks(store, d, b, url, i, PubOf(t), SysOf(t));
        var o := RunAsk(store, d, b, url, i, PubOf(t), SysOf(t));
        if o.answer.NotFound? {
          FreeShrinks(store, d, o.depth);
          DelegatesSane(store, o.depth, o.broken, url, t, i + 1, Recorded(table, e.url));
          DelegatesCutMarks(store, o.depth, o.broken, url, t, i + 1, Recorded(table, e.url));
        }
      }
    }
  }

  lemma {:induction false} NextCutMarks(store: Store, d: Depths, b: Broken, url: string, pub: Option<string>,
      sys: Option<string>, i: nat)
    requires d.Keys == store.Keys && url in store && i <= |store[url]|
    ensures var o := RunNext(store, d, b, url, pub, sys, i).0; CutMarks(store, o.answer, o.broken)
    decreases Free(store, d), 4, |store[url]| - i
  {
    if i < |store[url]| {
      if !(store[url][i].kind.NextCatalog? && (url, i) !in b) {
        NextCutMarks(store, d, b, url, pub, sys, i + 1);
      } else {
        AskCutMarks(store, d, b, url, i, pub, sys);
        var o := RunAsk(store, d, b, url, i, pub, sys);
        if o.answer.NotFound? {
          FreeShrinks(store, d, o.depth);
          NextCutMarks(store, o.depth, o.broken, url, pub, sys, i + 1);
        }
      }
    }
  }

  // ----- asking the same again

  /** No two applicable delegates of the file carry the same URL without a file. */
  ghost predicate Distinct(store: Store, url: string, t: Topic)
    requires url in store
  {
    forall i: nat :: i < |store[url]| && Delegates(store[url][i], t) && store[url][i].url !in store ==>
      FirstMissing(store, url, i, t)
  }

  predicate SomeLoads(store: Store, url: string, b: Broken, t: Topic)
    requires url in store
  {
    exists i :: 0 <= i < |store[url]| && Active(url, i, store[url][i], b, t) && store[url][i].url in store
  }

  lemma BothRuns(store: Store, rank: map<string, nat>, d: Depths, b: Broken, url: string, pub: Option<string>,
      sys: Option<string>)
    requires Acyclic(store, rank) && d.Keys == store.Keys && url in store && AllMissing(store, b)
    requires Calm(store, rank, rank[url] + 1, d)
    ensures var o := RunResolve(store, d, b, url, pub, sys);
            && o.answer == Lookup(store, rank, b, url, pub, sys) && o.depth == d
            && MoreMarks(store, b, o.broken) && CutMarks(store, o.answer, o.broken)
            && RunResolve(store, o.depth, o.broken, url, pub, sys).answer ==
              Lookup(store, rank, o.broken, url, pub, sys)
  {
    var o := RunResolve(store, d, b, url, pub, sys);
    ResolveSane(store, d, b, url, pub, sys);
    ResolveRefines(store, rank, d, b, url, pub, sys);
    ResolveRefines(store, rank, o.depth, o.broken, url, pub, sys);
    ResolveCutMarks(store, d, b, url, pub, sys);
  }

  // ----- which delegates a run marks

  /** The identifiers that a question is about. */
  predicate Asked(t: Topic, pub: Option<string>, sys: Option<string>)
  {
    if t.OfSystem? then sys == Some(t.id) else pub == Some(t.id)
  }

  ghost predicate HasFile(store: Store, url: string, t: Topic)
    requires url in store
  {
    exists i :: 0 <= i < |store[url]| && Delegates(store[url][i], t) && store[url][i].url in store
  }

  /** The delegates at entry `x` were asked over `t`, and that found something, or it was the cut. */
  ghost predicate Explained(store: Store, x: (string, nat), a: Answer, pub: Option<string>, sys: Option<string>)
    requires Missing(store, x)
  {
    IsDelegate(store[x.0][x.1]) ==>
      exists t :: Asked(t, pub, sys) && Delegates(store[x.0][x.1], t) && (a == Cut(x.0, t) || HasFile(store, x.0, t))
  }

  ghost predicate AllExplained(store: Store, b: Broken, o: Outcome, pub: Option<string>, sys: Option<string>)
  {
    forall x :: x in o.broken && x !in b ==> Missing(store, x) && Explained(store, x, o.answer, pub, sys)
  }

  /** A question about fewer identifiers explains as much. */
  lemma ExplainedMore(store: Store, b: Broken, o: Outcome, pub: Option<string>, sys: Option<string>, p: Option<string>,
      s: Option<string>)
    requires AllExplained(store, b, o, pub, sys) && (pub.Some? ==> p == pub) && (sys.Some? ==> s == sys)
    ensures AllExplained(store, b, o, p, s)
  {
    forall x | x in o.broken && x !in b ensures Explained(store, x, o.answer, p, s) {
      if IsDelegate(store[x.0][x.1]) {
        var t :| Asked(t, pub, sys) && Delegates(store[x.0][x.1], t)
                 && (o.answer == Cut(x.0, t) || HasFile(store, x.0, t));
        assert Asked(t, p, s);
      }
    }
  }

  /** What came before an outcome found nothing. */
  lemma ExplainedThen(store: Store, b: Broken, o: Outcome, rest: Outcome, pub: Option<string>, sys: Option<string>)
    requires o.answer.NotFound? && AllExplained(store, b, o, pub, sys)
    requires AllExplained(store, o.broken, rest, pub, sys)
    ensures AllExplained(store, b, Then(o, rest), pub, sys)
  {
    forall x | x in rest.broken && x !in b ensures Missing(store, x) && Explained(store, x, rest.answer, pub, sys) {
      if x in o.broken && IsDelegate(store[x.0][x.1]) {
        var t :| Asked(t, pub, sys) && Delegates(store[x.0][x.1], t)
                 && (o.answer == Cut(x.0, t) || HasFile(store, x.0, t));
      }
    }
  }

  lemma {:induction false} ResolveExplained(store: Store, d: Depths, b: Broken, url: string, pub: Option<string>,
      sys: Option<string>)
    requires d.Keys == store.Keys && url in store
    ensures AllExplained(store, b, RunResolve(store, d, b, url, pub, sys), pub, sys)
    decreases Free(store, d), 1, 0
  {
    if d[url] <= MAX_CATAL_DEPTH {
      var e := d[url := d[url] + 1];
      FreeShrinks(store, d, e);
      EnteredExplained(store, e, b, url, pub, sys);
    }
  }

  lemma {:induction false} EnteredExplained(store: Store, d: Depths, b: Broken, url: string, pub: Option<string>,
      sys: Option<string>)
    requires d.Keys == store.Keys && url in store
    ensures AllExplained(store, b, RunEntered(store, d, b, url, pub, sys).0, pub, sys)
    decreases Free(store, d), 6, 0
  {
    if sys.Some? { SystemExplained(store, d, b, url, pub, sys.value); }
    if pub.Some? { PublicExplained(store, d, b, url, pub.value, sys); }
    NextExplained(store, d, b, url, pub, sys, 0);
  }

  lemma {:induction false} SystemExplained(store: Store, d: Depths, b: Broken, url: string, pub: Option<string>,
      sys: string)
    requires d.Keys == store.Keys && url in store
    ensures var o := RunSystem(store, d, b, url, sys); o.Some? ==> AllExplained(store, b, o.value, pub, Some(sys))
    decreases Free(store, d), 5, 0
  {
    var t := OfSystem(sys);
    var o := RunDelegates(store, d, b, url, t, 0, []);
    DelegatesExplained(store, d, b, url, t, 0, []);
    CutExplained(store, b, o, url, t);
    ExplainedMore(store, b, o.(answer := CutOff(o.answer, url, t)), PubOf(t), SysOf(t), pub, Some(sys));
  }

  lemma {:induction false} PublicExplained(store: Store, d: Depths, b: Broken, url: string, pub: string,
      sys: Option<string>)
    requires d.Keys == store.Keys && url in store
    ensures var o := RunPublic(store, d, b, url, pub); o.Some? ==> AllExplained(store, b, o.value, Some(pub), sys)
    decreases Free(store, d), 5, 0
  {
    var t := OfPublic(pub);
    var o := RunDelegates(store, d, b, url, t, 0, []);
    DelegatesExplained(store, d, b, url, t, 0, []);
    CutExplained(store, b, o, url, t);
    ExplainedMore(store, b, o.(answer := CutOff(o.answer, url, t)), PubOf(t), SysOf(t), Some(pub), sys);
  }

  /** The marks of a loop over delegates: those of the file itself, over its topic, are explained by the
      outcome once that is a cut or came from a file. */
  ghost predicate LoopExplained(store: Store, b: Broken, o: Outcome, url: string, t: Topic)
  {
    && (forall x :: x in o.broken && x !in b ==> Missing(store, x))
    && (forall x :: x in o.broken && x !in b && !(x.0 == url && Delegates(store[url][x.1], t)) ==>
          Explained(store, x, o.answer, PubOf(t), SysOf(t)))
    && (!o.answer.NotFound? ==> url in store && HasFile(store, url, t))
  }

  lemma CutExplained(store: Store, b: Broken, o: Outcome, url: string, t: Topic)
    requires LoopExplained(store, b, o, url, t)
    ensures AllExplained(store, b, o.(answer := CutOff(o.answer, url, t)), PubOf(t), SysOf(t))
  {
    var a := CutOff(o.answer, url, t);
    forall x | x in o.broken && x !in b ensures Explained(store, x, a, PubOf(t), SysOf(t)) {
      if x.0 == url && Delegates(store[url][x.1], t) {
        assert Asked(t, PubOf(t), SysOf(t));
      } else if IsDelegate(store[x.0][x.1]) {
        var s :| Asked(s, PubOf(t), SysOf(t)) && Delegates(store[x.0][x.1], s)
                 && (o.answer == Cut(x.0, s) || HasFile(store, x.0, s));
      }
    }
  }

  lemma {:induction false} DelegatesExplained(store: Store, d: Depths, b: Broken, url: string, t: Topic, i: nat,
      table: seq<string>)
    requires d.Keys == store.Keys && url in store && i <= |store[url]|
    ensures LoopExplained(store, b, RunDelegates(store, d, b, url, t, i, table), url, t)
    decreases Free(store, d), 4, |store[url]| - i
  {
    if i < |store[url]| {
      var e := store[url][i];
      if !Active(url, i, e, b, t) || e.url in table {
        DelegatesExplained(store, d, b, url, t, i + 1, table);
      } else {
        var o := RunAsk(store, d, b, url, i, PubOf(t), SysOf(t));
        AskLoopExplained(store, d, b, url, t, i);
        if o.answer.NotFound? {
          FreeShrinks(store, d, o.depth);
          var rest := RunDelegates(store, o.depth, o.broken, url, t, i + 1, Recorded(table, e.url));
          DelegatesExplained(store, o.depth, o.broken, url, t, i + 1, Recorded(table, e.url));
          LoopThen(store, b, o, rest, url, t);
        }
      }
    }
  }

  lemma LoopThen(store: Store, b: Broken, o: Outcome, rest: Outcome, url: string, t: Topic)
    requires url in store && o.answer.NotFound? && LoopExplained(store, b, o, url, t)
    requires LoopExplained(store, o.broken, rest, url, t)
    ensures LoopExplained(store, b, Then(o, rest), url, t)
  {
    forall x | x in rest.broken && x !in b && !(x.0 == url && Delegates(store[url][x.1], t))
      ensures Missing(store, x) && Explained(store, x, rest.answer, PubOf(t), SysOf(t))
    {
      if x in o.broken && IsDelegate(store[x.0][x.1]) {
        var s :| Asked(s, PubOf(t), SysOf(t)) && Delegates(store[x.0][x.1], s)
                 && (o.answer == Cut(x.0, s) || HasFile(store, x.0, s));
      }
    }
  }

  lemma {:induction false} AskLoopExplained(store: Store, d: Depths, b: Broken, url: string, t: Topic, i: nat)
    requires d.Keys == store.Keys && url in store && i < |store[url]| && Delegates(store[url][i], t)
    ensures LoopExplained(store, b, RunAsk(store, d, b, url, i, PubOf(t), SysOf(t)), url, t)
    decreases Free(store, d), 2, 1
  {
    var u := store[url][i].url;
    if Loads(store, u) {
      ResolveExplained(store, d, b, u, PubOf(t), SysOf(t));
      assert HasFile(store, url, t);
    }
  }

  lemma {:induction false} NextExplained(store: Store, d: Depths, b: Broken, url: string, pub: Option<string>,
      sys: Option<string>, i: nat)
    requires d.Keys == store.Keys && url in store && i <= |store[url]|
    ensures AllExplained(store, b, RunNext(store, d, b, url, pub, sys, i).0, pub, sys)
    decreases Free(store, d), 4, |store[url]| - i
  {
    if i < |store[url]| {
      var e := store[url][i];
      if !(e.kind.NextCatalog? && (url, i) !in b) {
        NextExplained(store, d, b, url, pub, sys, i + 1);
      } else {
        var o := RunAsk(store, d, b, url, i, pub, sys);
        if Loads(store, e.url) { ResolveExplained(store, d, b, e.url, pub, sys); }
        assert AllExplained(store, b, o, pub, sys);
        if o.answer.NotFound? && !(e.url in store && o.depth[url] > MAX_CATAL_DEPTH) {
          FreeShrinks(store, d, o.depth);
          NextExplained(store, o.depth, o.broken, url, pub, sys, i + 1);
          ExplainedThen(store, b, o, RunNext(store, o.depth, o.broken, url, pub, sys, i + 1).0, pub, sys);
        }
      }
    }
  }

  // ----- the second answer

  /** The applicable delegates of the file that have no file of their own. */
  function Gone(store: Store, url: string, t: Topic): Broken
    requires url in store
  {
    set i: nat | i < |store[url]| && Delegates(store[url][i], t) && store[url][i].url !in store :: (url, i)
  }

  lemma GoneMissing(store: Store, url: string, t: Topic)
    requires url in store
    ensures forall x :: x in Gone(store, url, t) ==> Missing(store, x) && x.0 == url && Delegates(store[url][x.1], t)
  {
  }

  /** The cut of a lookup is about an identifier that was asked for. */
  ghost predicate CutAsked(a: Answer, pub: Option<string>, sys: Option<string>)
  {
    a.Cut? ==> Asked(a.topic, pub, sys)
  }

  lemma {:induction false} LookupAsked(store: Store, rank: map<string, nat>, b: Broken, url: string,
                                       pub: Option<string>, sys: Option<string>)
    requires Acyclic(store, rank) && url in store
    ensures CutAsked(Lookup(store, rank, b, url, pub, sys), pub, sys)
    decreases rank[url], 2, 0
  {
    if sys.Some? { DelegatedAsked(store, rank, b, url, OfSystem(sys.value), 0); }
    if pub.Some? { DelegatedAsked(store, rank, b, url, OfPublic(pub.value), 0); }
    NextCatalogsAsked(store, rank, b, url, pub, sys, 0);
  }

  lemma {:induction false} DelegatedAsked(store: Store, rank: map<string, nat>, b: Broken, url: string, t: Topic,
      i: nat)
    requires Acyclic(store, rank) && url in store && i <= |store[url]|
    ensures CutAsked(Delegated(store, rank, b, url, t, i), PubOf(t), SysOf(t))
    decreases rank[url], 0, |store[url]| - i
  {
    if i < |store[url]| {
      var e := store[url][i];
      if Active(url, i, e, b, t) && Loads(store, e.url) {
        assert rank[e.url] < rank[url];
        LookupAsked(store, rank, b, e.url, PubOf(t), SysOf(t));
      }
      DelegatedAsked(store, rank, b, url, t, i + 1);
    }
  }

  lemma {:induction false} NextCatalogsAsked(store: Store, rank: map<string, nat>, b: Broken, url: string,
                                             pub: Option<string>, sys: Option<string>, i: nat)
    requires Acyclic(store, rank) && url in store && i <= |store[url]|
    ensures CutAsked(Next(store, rank, b, url, pub, sys, i), pub, sys)
    decreases rank[url], 0, |store[url]| - i
  {
    if i < |store[url]| {
      var e := store[url][i];
      if e.kind.NextCatalog? && Loads(store, e.url) {
        assert rank[e.url] < rank[url];
        LookupAsked(store, rank, b, e.url, pub, sys);
      }
      NextCatalogsAsked(store, rank, b, url, pub, sys, i + 1);
    }
  }

  /** Of the marks that a cut lookup leaves only those of the file behind the cut matter, if none of its
      applicable delegates is left. */
  lemma OnlyCutter(store: Store, rank: map<string, nat>, b: Broken, o: Outcome, url: string,
                   pub: Option<string>, sys: Option<string>)
    requires Acyclic(store, rank) && url in store && AllMissing(store, b)
    requires b <= o.broken && AllExplained(store, b, o, pub, sys)
    requires o.answer.Cut? && o.answer.file in store && Asked(o.answer.topic, pub, sys)
    requires !AnyActive(o.answer.file, store[o.answer.file], o.broken, o.answer.topic)
    ensures Lookup(store, rank, o.broken, url, pub, sys) ==
            Lookup(store, rank, b + Gone(store, o.answer.file, o.answer.topic), url, pub, sys)
  {
    var f, t, c := o.answer.file, o.answer.topic, o.broken;
    var b1 := b + Gone(store, f, t);
    GoneMissing(store, f, t);
    assert b1 <= c by {
      forall x | x in Gone(store, f, t) ensures x in c {
        assert x.0 == f && !Active(f, x.1, store[f][x.1], c, t);
      }
    }
    var after := Lookup(store, rank, b1, url, pub, sys);
    LookupStays(store, rank, b, b1, url, pub, sys);
    LookupAsked(store, rank, b1, url, pub, sys);
    MoreMarksExactly(store, rank, b1, c, url, pub, sys);
    if after.Cut? { StillActive(store, b, o, after.file, after.topic, pub, sys); }
  }

  /** Another file that cuts keeps a delegate that was not marked. */
  lemma StillActive(store: Store, b: Broken, o: Outcome, g: string, s: Topic, pub: Option<string>, sys: Option<string>)
    requires g in store && AllMissing(store, b) && b <= o.broken && AllExplained(store, b, o, pub, sys)
    requires o.answer.Cut? && o.answer.file in store && Asked(o.answer.topic, pub, sys) && Asked(s, pub, sys)
    requires AnyActive(g, store[g], b + Gone(store, o.answer.file, o.answer.topic), s)
    ensures AnyActive(g, store[g], o.broken, s)
  {
    var i :| 0 <= i < |store[g]| && Active(g, i, store[g][i], b + Gone(store, o.answer.file, o.answer.topic), s);
    var x := (g, i);
    if x in o.broken {
      assert Missing(store, x) && Explained(store, x, o.answer, pub, sys);
      var t :| Asked(t, pub, sys) && Delegates(store[g][i], t) && (o.answer == Cut(g, t) || HasFile(store, g, t));
      assert t == s;
      assert x in Gone(store, g, s);
      assert o.answer != Cut(g, t);
      var k :| 0 <= k < |store[g]| && Delegates(store[g][k], t) && store[g][k].url in store;
      assert (g, k) !in o.broken;
      assert Active(g, k, store[g][k], o.broken, s);
    } else {
      assert Active(g, i, store[g][i], o.broken, s);
    }
  }

  /** Two lookups of the same thing, the second with the counters and the marks that the first left.
      Every answer but a cut is the same.  After a cut, if the file behind it still has an applicable
      delegate that is not marked, that file cuts again; if it has none, the answer is the declarative
      one with all its applicable delegates without a file marked beforehand.  The latter holds anyway
      if those delegates carry different URLs. */
  lemma AskedAgain(store: Store, rank: map<string, nat>, d: Depths, b: Broken, url: string, pub: Option<string>,
      sys: Option<string>)
    requires Acyclic(store, rank) && d.Keys == store.Keys && url in store && AllMissing(store, b)
    requires Calm(store, rank, rank[url] + 1, d)
    ensures var o := RunResolve(store, d, b, url, pub, sys);
            var again := RunResolve(store, o.depth, o.broken, url, pub, sys).answer;
            && (!o.answer.Cut? ==> again == o.answer)
            && (o.answer.Cut? ==>
                  var (f, t) := (o.answer.file, o.answer.topic);
                  && f in store
                  && (SomeLoads(store, f, b, t) ==> AnyActive(f, store[f], o.broken, t))
                  && (AnyActive(f, store[f], o.broken, t) ==> again == o.answer)
                  && (!AnyActive(f, store[f], o.broken, t) || Distinct(store, f, t) ==>
                        again == Lookup(store, rank, b + Gone(store, f, t), url, pub, sys)))
  {
    var o := RunResolve(store, d, b, url, pub, sys);
    BothRuns(store, rank, d, b, url, pub, sys);
    MoreMarksExactly(store, rank, b, o.broken, url, pub, sys);
    if o.answer.Cut? {
      var f, t := o.answer.file, o.answer.topic;
      LeftActive(store, b, o.broken, f, t);
      ResolveExplained(store, d, b, url, pub, sys);
      LookupAsked(store, rank, b, url, pub, sys);
      if !AnyActive(f, store[f], o.broken, t) {
        OnlyCutter(store, rank, b, o, url, pub, sys);
      } else if Distinct(store, f, t) {
        GoneLeaves(store, b, f, t);
        GoneMissing(store, f, t);
        MoreMarksExactly(store, rank, b, b + Gone(store, f, t), url, pub, sys);
      }
    }
  }

  lemma GoneLeaves(store: Store, b: Broken, url: string, t: Topic)
    requires url in store && SomeLoads(store, url, b, t)
    ensures AnyActive(url, store[url], b + Gone(store, url, t), t)
  {
    var i :| 0 <= i < |store[url]| && Active(url, i, store[url][i], b, t) && store[url][i].url in store;
    assert Active(url, i, store[url][i], b + Gone(store, url, t), t);
  }

  /** A delegate with a file is never newly marked; one without is, if it is the first of its URL. */
  lemma LeftActive(store: Store, b: Broken, c: Broken, url: string, t: Topic)
    requires url in store && MoreMarks(store, b, c)
    requires forall i: nat :: FirstMissing(store, url, i, t) ==> (url, i) in c
    ensures SomeLoads(store, url, b, t) ==> AnyActive(url, store[url], c, t)
    ensures Distinct(store, url, t) && AnyActive(url, store[url], c, t) ==> SomeLoads(store, url, b, t)
  {
    if SomeLoads(store, url, b, t) {
      var i :| 0 <= i < |store[url]| && Active(url, i, store[url][i], b, t) && store[url][i].url in store;
      assert Active(url, i, store[url][i], c, t);
    }
    if Distinct(store, url, t) && AnyActive(url, store[url], c, t) {
      var i :| 0 <= i < |store[url]| && Active(url, i, store[url][i], c, t);
      assert !FirstMissing(store, url, i, t);
      assert Active(url, i, store[url][i], b, t);
    }
  }

  // ----- a question with two answers

  const GONE := Entry(DelegateSystem, "x", "gone", false)
  const MORE := Entry(NextCatalog, "", "b", false)
  const KNOWN := Entry(System, "x", "y", false)

  /** File "a" delegates to a file that cannot be loaded and continues with file "b". */
  const TWO_FILES: Store := map["a" := [GONE, MORE], "b" := [KNOWN]]
  const RANKS: map<string, nat> := map["a" := 1, "b" := 0]

  lemma TwoFilesAcyclic()
    ensures Acyclic(TWO_FILES, RANKS) && "a" in TWO_FILES && "b" in TWO_FILES
  {
    forall u, i | u in TWO_FILES && 0 <= i < |TWO_FILES[u]|
      ensures IsReference(TWO_FILES[u][i]) && TWO_FILES[u][i].url in TWO_FILES ==> RANKS[TWO_FILES[u][i].url] < RANKS[u]
    {
      assert u == "a" || u == "b";
    }
  }

  ghost predicate AtRest(d: Depths) { forall u :: u in d ==> d[u] == 0 }

  /** A file with a delegate for the identifier that has no file, and a next catalog. */
  predicate Skewed(store: Store, url: string, id: string)
  {
    && url in store && |store[url]| == 2
    && DelegatesSystem(store[url][0], id) && store[url][0].url !in store
    && store[url][1].kind.NextCatalog? && Loads(store, store[url][1].url)
  }

  /** The first lookup is cut off by the delegate; the second one passes it over and gets the answer of
      the next catalog. */
  lemma TwoAnswers(store: Store, rank: map<string, nat>, d: Depths, url: string, id: string)
    requires Acyclic(store, rank) && d.Keys == store.Keys && AtRest(d) && Skewed(store, url, id)
    ensures var o := RunResolve(store, d, {}, url, None, Some(id));
            && o.answer == Cut(url, OfSystem(id)) && o.depth == d
            && RunResolve(store, o.depth, o.broken, url, None, Some(id)).answer
               == Lookup(store, rank, o.broken, store[url][1].url, None, Some(id))
  {
    BothRuns(store, rank, d, {}, url, None, Some(id));
    NoEntry(store[url], id);
    FirstAnswerCut(store, rank, url, id);
    assert FirstMissing(store, url, 0, OfSystem(id));
    SecondAnswer(store, rank, RunResolve(store, d, {}, url, None, Some(id)).broken, url, id);
  }

  lemma NoEntry(es: seq<Entry>, id: string)
    requires forall i :: 0 <= i < |es| ==> !es[i].kind.System? && !es[i].kind.RewriteSystem?
    ensures First(es, System, id).None? && Best(es, id).None?
  {
  }

  lemma FirstAnswerCut(store: Store, rank: map<string, nat>, url: string, id: string)
    requires Acyclic(store, rank) && Skewed(store, url, id)
    ensures Lookup(store, rank, {}, url, None, Some(id)) == Cut(url, OfSystem(id))
  {
    var es := store[url];
    NoEntry(es, id);
    var t := OfSystem(id);
    assert Active(url, 0, es[0], {}, t) && AnyActive(url, es, {}, t);
    assert Delegated(store, rank, {}, url, t, 2) == NotFound;
    assert Delegated(store, rank, {}, url, t, 1) == NotFound;
    assert !Loads(store, es[0].url) && Delegated(store, rank, {}, url, t, 0) == NotFound;
    assert SystemStep(store, rank, {}, url, id) == Some(Cut(url, t));
  }

  lemma SecondAnswer(store: Store, rank: map<string, nat>, b: Broken, url: string, id: string)
    requires Acyclic(store, rank) && Skewed(store, url, id) && (url, 0) in b
    ensures Lookup(store, rank, b, url, None, Some(id)) == Lookup(store, rank, b, store[url][1].url, None, Some(id))
  {
    var es := store[url];
    NoEntry(es, id);
    assert !AnyActive(url, es, b, OfSystem(id));
    assert Next(store, rank, b, url, None, Some(id), 2) == NotFound;
    assert Next(store, rank, b, url, None, Some(id), 1) == Lookup(store, rank, b, es[1].url, None, Some(id));
  }

  /** A file that knows the identifier answers with it. */
  lemma Known(store: Store, rank: map<string, nat>, b: Broken, url: string, id: string)
    requires Acyclic(store, rank) && url in store && |store[url]| > 0 && Matches(store[url][0], System, id)
    ensures Lookup(store, rank, b, url, None, Some(id)) == Found(store[url][0].url)
  {
  }
}
