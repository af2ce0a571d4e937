/** SAX2.c: the default tree builder, and how xmlSAX2Characters gathers character data. */
module TreeBuilder {
  import opened Strings

  const XML_MAX_TEXT_LENGTH: nat := 10_000_000
  const INT_MAX: nat := 0x7FFF_FFFF

  datatype Child = Text(s: string) | Element(name: string, children: seq<Child>) | Other(id: int)

  /** An open element with the children it has so far; the outermost frame is the document. */
  datatype Frame = Frame(name: string, children: seq<Child>)

  /** What reaches the builder.  `Graft` is the text of a substituted entity, which the tree code adds
      to the last text by itself; `Node` is a comment or a processing instruction. */
  datatype Event = Chars(s: string) | Graft(s: string) | Node(id: int) | Start(name: string) | End

  // ----- the tree a run of events stands for

  /** `grafted`: the last text was last added to by a graft. */
  datatype State = State(frames: seq<Frame>, grafted: bool)

  const START := State([Frame("", [])], false)

  predicate EndsInText(children: seq<Child>)
  {
    children != [] && children[|children| - 1].Text?
  }

  /** Text added at the end: it never starts a second text next to another. */
  function AddText(children: seq<Child>, s: string): seq<Child>
  {
    if EndsInText(children) then
      children[..|children| - 1] + [Text(children[|children| - 1].s + s)]
    else children + [Text(s)]
  }

  /** A text being gathered may not grow past the limit. */
  predicate TooLong(huge: bool, st: State, s: string)
    requires st.frames != []
  {
    var children := st.frames[|st.frames| - 1].children;
    EndsInText(children) && !st.grafted && !huge && |children[|children| - 1].s| + |s| > XML_MAX_TEXT_LENGTH
  }

  function Top(st: State): Frame
    requires st.frames != []
  {
    st.frames[|st.frames| - 1]
  }

  /** The top frame with other children. */
  function WithTop(st: State, children: seq<Child>, grafted: bool): (r: State)
    requires st.frames != []
    ensures |r.frames| == |st.frames|
  {
    State(st.frames[..|st.frames| - 1] + [Top(st).(children := children)], grafted)
  }

  function Step(huge: bool, st: State, e: Event): (r: State)
    requires st.frames != []
    ensures r.frames != []
  {
    match e
    case Chars(s) =>
      if |st.frames| == 1 || TooLong(huge, st, s) then st
      else WithTop(st, AddText(Top(st).children, s), false)
    case Graft(s) =>
      if |st.frames| == 1 then st else WithTop(st, AddText(Top(st).children, s), true)
    case Node(id) => WithTop(st, Top(st).children + [Other(id)], false)
    case Start(name) => State(st.frames + [Frame(name, [])], false)
    case End =>
      if |st.frames| == 1 then st
      else
        var outer := State(st.frames[..|st.frames| - 1], false);
        WithTop(outer, Top(outer).children + [Element(Top(st).name, Top(st).children)], false)
  }

  function Run(huge: bool, st: State, events: seq<Event>): (r: State)
    requires st.frames != []
    ensures r.frames != []
  {
    if events == [] then st else Step(huge, Run(huge, st, events[..|events| - 1]), events[|events| - 1])
  }

  // ----- texts never stand side by side

  predicate Apart(children: seq<Child>)
  {
    && (forall i :: 0 < i < |children| ==> !(children[i - 1].Text? && children[i].Text?))
    && forall i :: 0 <= i < |children| ==> children[i].Element? ==> Apart(children[i].children)
  }

  predicate AllApart(st: State)
  {
    forall i :: 0 <= i < |st.frames| ==> Apart(st.frames[i].children)
  }

  lemma StepApart(huge: bool, st: State, e: Event)
    requires st.frames != [] && AllApart(st)
    ensures AllApart(Step(huge, st, e))
  {
    assert Apart(Top(st).children);
  }

  /** In every tree that a run builds, no two texts are neighbours. */
  lemma {:induction false} RunApart(huge: bool, events: seq<Event>)
    ensures AllApart(Run(huge, START, events))
    decreases |events|
  {
    if events != [] {
      RunApart(huge, events[..|events| - 1]);
      StepApart(huge, Run(huge, START, events[..|events| - 1]), events[|events| - 1]);
    }
  }

  // ----- no character data is lost

  function ContentOf(children: seq<Child>): string
  {
    if children == [] then ""
    else
      var last := children[|children| - 1];
      ContentOf(children[..|children| - 1]) + match last
                                              case Text(s) => s
                                              case Element(_, inner) => ContentOf(inner)
                                              case Other(_) => ""
  }

  /** The text of the whole document so far, in document order. */
  function Content(frames: seq<Frame>): string
  {
    if frames == [] then ""
    else Content(frames[..|frames| - 1]) + ContentOf(frames[|frames| - 1].children)
  }

  /** How many frames are open after a run; an end with no element open is nothing. */
  function Depth(events: seq<Event>): (d: nat)
    ensures d >= 1
  {
    if events == [] then 1
    else
      var d := Depth(events[..|events| - 1]);
      match events[|events| - 1]
      case Start(_) => d + 1
      case End => if d > 1 then d - 1 else d
      case _ => d
  }

  function Added(e: Event): string
  {
    match e
    case Chars(s) => s
    case Graft(s) => s
    case _ => ""
  }

  /** The character data of a run that arrives inside an element. */
  function Data(events: seq<Event>): string
  {
    if events == [] then ""
    else
      var front := events[..|events| - 1];
      Data(front) + if Depth(front) > 1 then Added(events[|events| - 1]) else ""
  }

  lemma ContentOfPush(children: seq<Child>, child: Child)
    ensures ContentOf(children + [child]) == ContentOf(children) + ContentOf([child])
  {
    assert (children + [child])[..|children|] == children;
    assert [child][..0] == [];
  }

  lemma AddTextContent(children: seq<Child>, s: string)
    ensures ContentOf(AddText(children, s)) == ContentOf(children) + s
    ensures EndsInText(children) ==> |children[|children| - 1].s| <= |ContentOf(children)|
  {
    if EndsInText(children) {
      var front, last := children[..|children| - 1], children[|children| - 1];
      assert children == front + [last];
      ContentOfPush(front, last);
      ContentOfPush(front, Text(last.s + s));
      Assoc(ContentOf(front), last.s, s);
    } else {
      ContentOfPush(children, Text(s));
    }
  }

  lemma ContentPush(frames: seq<Frame>, frame: Frame)
    ensures Content(frames + [frame]) == Content(frames) + ContentOf(frame.children)
  {
    assert (frames + [frame])[..|frames|] == frames;
  }

  /** New children of the top frame with `s` more text in them. */
  lemma WithTopContent(st: State, children: seq<Child>, grafted: bool, s: string)
    requires st.frames != [] && ContentOf(children) == ContentOf(Top(st).children) + s
    ensures Content(WithTop(st, children, grafted).frames) == Content(st.frames) + s
  {
    var below := st.frames[..|st.frames| - 1];
    ContentPush(below, Top(st).(children := children));
    Assoc(Content(below), ContentOf(Top(st).children), s);
  }

  /** The text of an element that ends becomes part of its parent's. */
  lemma EndContent(huge: bool, st: State)
    requires |st.frames| > 1
    ensures Content(Step(huge, st, End).frames) == Content(st.frames)
  {
    var outer := State(st.frames[..|st.frames| - 1], false);
    var inner := Top(st).children;
    var ended := Element(Top(st).name, inner);
    assert ContentOf([ended]) == "" + ContentOf(inner) by { assert [ended][..0] == []; }
    assert "" + ContentOf(inner) == ContentOf(inner);
    ContentOfPush(Top(outer).children, ended);
    WithTopContent(outer, Top(outer).children + [ended], false, ContentOf(inner));
  }

  /** The character data that a step takes into the tree: all that arrives inside an element, unless it
      would make a text too long. */
  function Taken(huge: bool, st: State, e: Event): string
    requires st.frames != []
  {
    if |st.frames| == 1 || (e.Chars? && TooLong(huge, st, e.s)) then "" else Added(e)
  }

  lemma StepContent(huge: bool, st: State, e: Event)
    requires st.frames != []
    ensures Content(Step(huge, st, e).frames) == Content(st.frames) + Taken(huge, st, e)
  {
    var now := Content(st.frames);
    assert now + "" == now;
    match e
    case Chars(s) =>
      AddTextContent(Top(st).children, s);
      if |st.frames| > 1 { WithTopContent(st, AddText(Top(st).children, s), false, s); }
    case Graft(s) =>
      AddTextContent(Top(st).children, s);
      if |st.frames| > 1 { WithTopContent(st, AddText(Top(st).children, s), true, s); }
    case Node(id) =>
      ContentOfPush(Top(st).children, Other(id));
      WithTopContent(st, Top(st).children + [Other(id)], false, "");
    case Start(name) =>
      ContentPush(st.frames, Frame(name, []));
    case End =>
      if |st.frames| > 1 { EndContent(huge, st); }
  }

  lemma {:induction false} RunDepth(huge: bool, events: seq<Event>)
    ensures |Run(huge, START, events).frames| == Depth(events)
    decreases |events|
  {
    if events != [] { RunDepth(huge, events[..|events| - 1]); }
  }

  /** Event `k` brings character data inside an element, and it is refused. */
  predicate Refused(huge: bool, events: seq<Event>, k: nat)
    requires k < |events|
  {
    var st := Run(huge, START, events[..k]);
    events[k].Chars? && events[k].s != "" && |st.frames| > 1 && TooLong(huge, st, events[k].s)
  }

  ghost predicate NoneRefused(huge: bool, events: seq<Event>)
  {
    forall k :: 0 <= k < |events| ==> !Refused(huge, events, k)
  }

  lemma NoneRefusedFront(huge: bool, events: seq<Event>)
    requires events != []
    ensures var front := events[..|events| - 1];
            NoneRefused(huge, events) <==> NoneRefused(huge, front) && !Refused(huge, events, |events| - 1)
  {
    var front := events[..|events| - 1];
    forall k | 0 <= k < |front| ensures Refused(huge, events, k) <==> Refused(huge, front, k) {
      assert front[..k] == events[..k];
    }
  }

  /** The text of the tree is all character data received inside elements, in order, exactly if no
      piece of it would have made a text longer than the limit. */
  lemma {:induction false} RunContent(huge: bool, events: seq<Event>)
    ensures |Content(Run(huge, START, events).frames)| <= |Data(events)|
    ensures Content(Run(huge, START, events).frames) == Data(events) <==> NoneRefused(huge, events)
    decreases |events|
  {
    if events == [] {
      assert START.frames[..0] == [];
    } else {
      var front, e := events[..|events| - 1], events[|events| - 1];
      var st := Run(huge, START, front);
      RunContent(huge, front);
      RunDepth(huge, front);
      NoneRefusedFront(huge, events);
      StepContent(huge, st, e);
      var added := if Depth(front) > 1 then Added(e) else "";
      Extended(Content(st.frames), Data(front), Taken(huge, st, e), added);
    }
  }

  lemma Extended(a: string, b: string, x: string, y: string)
    requires |a| <= |b| && (x == y || x == "")
    ensures |a + x| <= |b + y|
    ensures a + x == b + y <==> a == b && x == y
  {
    if a + x == b + y {
      assert |a| == |b| && |x| == |y|;
      assert a == (a + x)[..|a|] && b == (b + y)[..|b|];
    }
  }
}
