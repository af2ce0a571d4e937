/** SAX2.c: the tree tells the events it was built from. */
module TreeEvents {
  import opened Strings
  import opened TreeBuilder

  // ----- the tree written out again

  /** The events that a list of children stands for. */
  function Written(children: seq<Child>): seq<Event>
  {
    if children == [] then []
    else
      var last := children[|children| - 1];
      Written(children[..|children| - 1]) + match last
                                            case Text(s) => [Chars(s)]
                                            case Element(name, inner) => [Start(name)] + Written(inner) + [End]
                                            case Other(id) => [Node(id)]
  }

  /** Those of the document so far: open elements have no end yet. */
  function WrittenOpen(frames: seq<Frame>): seq<Event>
  {
    if frames == [] then []
    else
      var top := frames[|frames| - 1];
      WrittenOpen(frames[..|frames| - 1]) + (if |frames| == 1 then [] else [Start(top.name)]) + Written(top.children)
  }

  // ----- what is received, without any tree

  /** The events that are kept, with neighbouring character data in one; whether the last character data
      came from an entity; and how many elements are open. */
  datatype Kept = Kept(events: seq<Event>, grafted: bool, open: nat)

  function Joined(events: seq<Event>, s: string): seq<Event>
  {
    if events != [] && events[|events| - 1].Chars? then
      events[..|events| - 1] + [Chars(events[|events| - 1].s + s)]
    else events + [Chars(s)]
  }

  /** Character data outside the elements, or that would make more than ten million bytes of what was
      gathered so far, and ends of nothing are dropped. */
  function Receive(huge: bool, k: Kept, e: Event): Kept
  {
    match e
    case Chars(s) =>
      var last := if k.events == [] then Chars("") else k.events[|k.events| - 1];
      if k.open == 0 || (!huge && !k.grafted && last.Chars? && k.events != [] && |last.s| + |s| > 10_000_000) then k
      else Kept(Joined(k.events, s), false, k.open)
    case Graft(s) => if k.open == 0 then k else Kept(Joined(k.events, s), true, k.open)
    case Node(id) => Kept(k.events + [Node(id)], false, k.open)
    case Start(name) => Kept(k.events + [Start(name)], false, k.open + 1)
    case End => if k.open == 0 then k else Kept(k.events + [End], false, k.open - 1)
  }

  function Received(huge: bool, events: seq<Event>): Kept
  {
    if events == [] then Kept([], false, 0)
    else Receive(huge, Received(huge, events[..|events| - 1]), events[|events| - 1])
  }

  // ----- they are the same

  lemma WrittenPush(children: seq<Child>, c: Child)
    ensures Written(children + [c]) == Written(children) + match c
                                                            case Text(s) => [Chars(s)]
                                                            case Element(name, inner) =>
                                                              [Start(name)] + Written(inner) + [End]
                                                            case Other(id) => [Node(id)]
  {
    assert (children + [c])[..|children|] == children;
  }

  lemma WrittenLast(children: seq<Child>)
    ensures EndsInText(children) <==> Written(children) != [] && Written(children)[|Written(children)| - 1].Chars?
    ensures EndsInText(children) ==>
              Written(children)[|Written(children)| - 1] == Chars(children[|children| - 1].s)
    ensures children != [] ==> Written(children) != []
  {
  }

  /** One text more, or more of the last. */
  lemma WrittenText(children: seq<Child>, s: string)
    ensures Written(AddText(children, s)) ==
            if EndsInText(children) then
              Written(children[..|children| - 1]) + [Chars(children[|children| - 1].s + s)]
            else Written(children) + [Chars(s)]
  {
    if EndsInText(children) {
      WrittenPush(children[..|children| - 1], Text(children[|children| - 1].s + s));
    } else {
      WrittenPush(children, Text(s));
    }
  }

  /** The whole up to the children of the innermost open element. */
  function Above(frames: seq<Frame>): seq<Event>
    requires frames != []
  {
    WrittenOpen(frames[..|frames| - 1]) + if |frames| == 1 then [] else [Start(frames[|frames| - 1].name)]
  }

  lemma WrittenWith(st: State, children: seq<Child>, grafted: bool)
    requires st.frames != []
    ensures WrittenOpen(WithTop(st, children, grafted).frames) == Above(st.frames) + Written(children)
  {
    assert WithTop(st, children, grafted).frames[..|st.frames| - 1] == st.frames[..|st.frames| - 1];
  }

  predicate EndsInChars(events: seq<Event>) { events != [] && events[|events| - 1].Chars? }

  lemma LastOfBoth(above: seq<Event>, w: seq<Event>, s: string)
    requires !EndsInChars(above)
    ensures EndsInChars(above + w) <==> EndsInChars(w)
    ensures EndsInChars(w) ==> (above + w)[|above + w| - 1] == w[|w| - 1]
    ensures Joined(above + w, s) == above + Joined(w, s)
  {
    if w == [] { assert above + w == above; }
  }

  lemma AboveEnds(frames: seq<Frame>)
    requires frames != []
    ensures !EndsInChars(Above(frames))
  {
    if |frames| == 1 { assert frames[..0] == []; }
  }

  /** The document so far ends in text exactly if the innermost open element does. */
  lemma OpenText(st: State, s: string, grafted: bool)
    requires st.frames != []
    ensures var w, children := WrittenOpen(st.frames), Top(st).children;
            && (EndsInChars(w) <==> EndsInText(children))
            && (EndsInChars(w) ==> w[|w| - 1] == Chars(children[|children| - 1].s))
            && WrittenOpen(WithTop(st, AddText(children, s), grafted).frames) == Joined(w, s)
  {
    var children := Top(st).children;
    AboveEnds(st.frames);
    WrittenLast(children);
    WrittenText(children, s);
    LastOfBoth(Above(st.frames), Written(children), s);
    WrittenWith(st, AddText(children, s), grafted);
    assert EndsInText(children) ==> Written(children)[..|Written(children)| - 1] == Written(children[..|children| - 1]);
  }

  lemma WrittenNode(st: State, id: int)
    requires st.frames != []
    ensures WrittenOpen(WithTop(st, Top(st).children + [Other(id)], false).frames) ==
            WrittenOpen(st.frames) + [Node(id)]
  {
    var children := Top(st).children;
    WrittenPush(children, Other(id));
    WrittenWith(st, children + [Other(id)], false);
    assert Above(st.frames) + (Written(children) + [Node(id)]) == Above(st.frames) + Written(children) + [Node(id)];
  }

  lemma WrittenStart(frames: seq<Frame>, name: string)
    requires frames != []
    ensures WrittenOpen(frames + [Frame(name, [])]) == WrittenOpen(frames) + [Start(name)]
  {
    assert (frames + [Frame(name, [])])[..|frames|] == frames;
    assert Written([]) == [];
  }

  lemma WrittenEnd(huge: bool, st: State)
    requires |st.frames| > 1
    ensures WrittenOpen(Step(huge, st, End).frames) == WrittenOpen(st.frames) + [End]
  {
    var outer := State(st.frames[..|st.frames| - 1], false);
    var name, inner, children := Top(st).name, Top(st).children, Top(outer).children;
    WrittenPush(children, Element(name, inner));
    WrittenWith(outer, children + [Element(name, inner)], false);
    Rebracket(Above(outer.frames), Written(children), [Start(name)], Written(inner), [End]);
  }

  lemma Rebracket<T>(a: seq<T>, b: seq<T>, c: seq<T>, d: seq<T>, e: seq<T>)
    ensures a + (b + (c + d + e)) == a + b + c + d + e
  {
  }

  predicate Tells(st: State, k: Kept)
  {
    k.events == WrittenOpen(st.frames) && k.grafted == st.grafted && k.open + 1 == |st.frames|
  }

  lemma StepTells(huge: bool, st: State, k: Kept, e: Event)
    requires st.frames != [] && Tells(st, k)
    ensures Tells(Step(huge, st, e), Receive(huge, k, e))
  {
    match e
    case Chars(s) => OpenText(st, s, false);
    case Graft(s) => OpenText(st, s, true);
    case Node(id) => WrittenNode(st, id);
    case Start(name) => WrittenStart(st.frames, name);
    case End => if |st.frames| > 1 { WrittenEnd(huge, st); }
  }

  /** The tree of a run, written out again, tells the events received. */
  lemma {:induction false} TreeTells(huge: bool, events: seq<Event>)
    ensures Tells(Run(huge, START, events), Received(huge, events))
    decreases |events|
  {
    if events == [] {
      assert START.frames[..0] == [];
      assert Written([]) == [];
    } else {
      var front := events[..|events| - 1];
      TreeTells(huge, front);
      StepTells(huge, Run(huge, START, front), Received(huge, front), events[|events| - 1]);
    }
  }

  /** The starts and nodes among events, in order. */
  function Markup(events: seq<Event>): seq<Event>
  {
    if events == [] then []
    else
      var last := events[|events| - 1];
      Markup(events[..|events| - 1]) + if last.Start? || last.Node? then [last] else []
  }

  lemma MarkupPush(events: seq<Event>, e: Event)
    ensures Markup(events + [e]) == Markup(events) + if e.Start? || e.Node? then [e] else []
  {
    assert (events + [e])[..|events|] == events;
  }

  lemma MarkupJoined(events: seq<Event>, s: string)
    ensures Markup(Joined(events, s)) == Markup(events)
  {
    if EndsInChars(events) {
      var last := events[|events| - 1];
      MarkupPush(events[..|events| - 1], Chars(last.s + s));
    } else {
      MarkupPush(events, Chars(s));
    }
  }

  lemma MarkupReceive(huge: bool, k: Kept, e: Event)
    ensures Markup(Receive(huge, k, e).events) == Markup(k.events) + if e.Start? || e.Node? then [e] else []
  {
    match e
    case Chars(s) => MarkupJoined(k.events, s);
    case Graft(s) => MarkupJoined(k.events, s);
    case Node(_) => MarkupPush(k.events, e);
    case Start(_) => MarkupPush(k.events, e);
    case End => MarkupPush(k.events, e);
  }

  /** No element and no other node of a run is missing from the tree, and each is where it came. */
  lemma {:induction false} MarkupKept(huge: bool, events: seq<Event>)
    ensures Markup(WrittenOpen(Run(huge, START, events).frames)) == Markup(events)
    decreases |events|
  {
    TreeTells(huge, events);
    if events != [] {
      var front := events[..|events| - 1];
      MarkupKept(huge, front);
      TreeTells(huge, front);
      MarkupReceive(huge, Received(huge, front), events[|events| - 1]);
    }
  }
}
