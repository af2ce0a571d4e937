/** HTMLparser.c: the stack of open elements, as a function from state to state.  The node stack of
    the tree builder (SAX2.c) moves along with it. */
module HtmlStack {
  import opened Strings

  const XML_PARSER_MAX_DEPTH := 256

  /** The fixed tables and the options the stack operations consult. */
  datatype Config = Config(
    closes: (string, string) -> bool,
    priority: string -> int,
    emptyElement: string -> bool,
    noImplied: bool,
    omittedDefault: bool,
    huge: bool
  )

  /** The name stack, the markers kept beside it, the node stack, and counts of what happened. */
  datatype State = State(
    names: seq<string>,
    html: nat,
    depth: nat,
    nodes: seq<string>,
    eof: bool,
    discarded: nat,
    absorbed: nat,
    impliedHeads: nat,
    impliedBodies: nat,
    overflows: nat
  )

  const START := State([], 1, 0, [], false, 0, 0, 0, 0, 0)

  datatype TagEnd = Closed | SelfClosed | Unfinished

  /** What the content loop reads next. */
  datatype Event =
    | StartTag(name: string, end: TagEnd)
    | NamelessTag
    | EndTag(name: string)
    | Characters
    | EndOfInput

  function Top(s: State): Option<string>
  {
    if s.names == [] then None else Some(s.names[|s.names| - 1])
  }

  function DropLast(names: seq<string>): seq<string>
  {
    if names == [] then [] else names[..|names| - 1]
  }

  // ----- pushing and popping

  function HtmlAfterPush(html: nat, v: string): nat
  {
    var h := if html < 3 && v == "head" then 3 else html;
    if h < 10 && v == "body" then 10 else h
  }

  /** The name goes on its stack; the node follows unless the tree is already too deep. */
  function Push(cfg: Config, s: State, v: string): State
  {
    var named := s.(names := s.names + [v], html := HtmlAfterPush(s.html, v));
    if |s.nodes| > XML_PARSER_MAX_DEPTH && !cfg.huge then named.(eof := true, overflows := s.overflows + 1)
    else named.(nodes := s.nodes + [v])
  }

  function Pop(s: State): State
  {
    s.(names := DropLast(s.names), nodes := DropLast(s.nodes))
  }

  /** Pops until `n` names are left. */
  function PopTo(s: State, n: nat): State
    requires n <= |s.names|
    decreases |s.names| - n
  {
    if n == |s.names| then s else PopTo(Pop(s), n)
  }

  // ----- implied ends and starts

  function AutoClose(cfg: Config, s: State, tag: string): State
    decreases |s.names|
  {
    if s.names != [] && cfg.closes(tag, Top(s).value) then AutoClose(cfg, Pop(s), tag) else s
  }

  predicate HeadContent(tag: string)
  {
    tag == "script" || tag == "style" || tag == "meta" || tag == "link" || tag == "title" || tag == "base"
  }

  predicate FrameContent(tag: string)
  {
    tag == "noframes" || tag == "frame" || tag == "frameset"
  }

  function ImplyHtml(cfg: Config, s: State): State
  {
    if s.names == [] then Push(cfg, s, "html") else s
  }

  function CheckImplied(cfg: Config, s: State, tag: string): State
  {
    if cfg.noImplied || !cfg.omittedDefault || tag == "html" then s
    else
      var t := ImplyHtml(cfg, s);
      if tag == "body" || tag == "head" then t
      else if |t.names| <= 1 && HeadContent(tag) then ImplyHead(cfg, t)
      else if !FrameContent(tag) then ImplyBody(cfg, t)
      else t
  }

  function ImplyHead(cfg: Config, s: State): State
  {
    if s.html >= 3 then s else Push(cfg, s, "head").(impliedHeads := s.impliedHeads + 1)
  }

  function ImplyBody(cfg: Config, s: State): State
  {
    if s.html >= 10 || "body" in s.names || "head" in s.names then s
    else Push(cfg, s, "body").(impliedBodies := s.impliedBodies + 1)
  }

  function ImplyParagraph(cfg: Config, s: State): State
  {
    Push(cfg, CheckImplied(cfg, AutoClose(cfg, s, "p"), "p"), "p")
  }

  function CheckParagraph(cfg: Config, s: State): State
  {
    if Top(s).None? then ImplyParagraph(cfg, s)
    else if !cfg.omittedDefault then s
    else if Top(s).value == "html" || Top(s).value == "head" then ImplyParagraph(cfg, s)
    else s
  }

  // ----- start tags

  function Count(names: seq<string>, v: string): nat
  {
    if names == [] then 0 else (if names[|names| - 1] == v then 1 else 0) + Count(names[..|names| - 1], v)
  }

  /** How often a start tag is found misplaced; it is discarded if at all. */
  function Misplaced(names: seq<string>, tag: string): nat
  {
    (if |names| > 0 && tag == "html" then 1 else 0)
    + (if |names| != 1 && tag == "head" then 1 else 0)
    + (if tag == "body" then Count(names, "body") else 0)
  }

  function OpenTag(cfg: Config, s: State, tag: string): State
  {
    PlaceTag(cfg, CheckImplied(cfg, AutoClose(cfg, s, tag), tag), tag)
  }

  /** A misplaced structural tag is dropped and remembered; any other is pushed. */
  function PlaceTag(cfg: Config, s: State, tag: string): State
  {
    var m := Misplaced(s.names, tag);
    if m > 0 then s.(depth := s.depth + m, discarded := s.discarded + 1) else Push(cfg, s, tag)
  }

  /** htmlParseElementInternal after the tag is read; with nothing open there is nothing to finish. */
  function Element(cfg: Config, s: State, tag: string, end: TagEnd): State
  {
    var t := OpenTag(cfg, s, tag);
    if t.names == [] then t
    else if !end.Closed? then Pop(t)
    else if cfg.emptyElement(Top(t).value) then Pop(t)
    else t
  }

  // ----- end tags

  /** The innermost open element the end tag may close: nothing above it has a higher priority. */
  function CloseTarget(cfg: Config, names: seq<string>, tag: string): Option<nat>
  {
    if names == [] then None
    else
      var last := names[|names| - 1];
      if last == tag then Some(|names| - 1)
      else if cfg.priority(last) > cfg.priority(tag) then None
      else CloseTarget(cfg, names[..|names| - 1], tag)
  }

  predicate Structural(tag: string) { tag == "html" || tag == "body" || tag == "head" }

  function CloseTag(cfg: Config, s: State, tag: string): State
  {
    if s.depth > 0 && Structural(tag) then s.(depth := s.depth - 1, absorbed := s.absorbed + 1)
    else
      match CloseTarget(cfg, s.names, tag)
      case None => s
      case Some(i) =>
        CloseTargetInside(cfg, s.names, tag);
        PopTo(s, i)
  }

  lemma {:induction false} CloseTargetInside(cfg: Config, names: seq<string>, tag: string)
    ensures CloseTarget(cfg, names, tag).Some? ==> CloseTarget(cfg, names, tag).value < |names|
  {
    if names != [] { CloseTargetInside(cfg, names[..|names| - 1], tag); }
  }

  // ----- runs

  function Step(cfg: Config, s: State, e: Event): State
  {
    match e
    case StartTag(tag, end) => Element(cfg, AutoClose(cfg, s, tag), tag, end)
    case NamelessTag => s
    case EndTag(tag) => CloseTag(cfg, s, tag)
    case Characters => CheckParagraph(cfg, s)
    case EndOfInput => PopTo(s, 0)
  }

  /** The content loop: it stops once the tree builder has given up. */
  function Run(cfg: Config, s: State, events: seq<Event>): State
    decreases |events|
  {
    if events == [] || s.eof then s else Run(cfg, Step(cfg, s, events[0]), events[1..])
  }

  // ----- what every run keeps

  ghost predicate Shape(names: seq<string>)
  {
    && (forall i :: 0 < i < |names| ==> names[i] != "html")
    && (forall i :: 0 <= i < |names| && i != 1 ==> names[i] != "head")
    && (forall i, j :: 0 <= i < j < |names| ==> !(names[i] == "body" && names[j] == "body"))
  }

  ghost predicate Inv(s: State)
  {
    && Shape(s.names)
    && s.depth + s.absorbed == s.discarded
    && (s.html < 10 ==> "body" !in s.names && s.impliedBodies == 0)
    && (s.html < 3 ==> s.impliedHeads == 0)
    && s.impliedHeads <= 1 && s.impliedBodies <= 1
    && (s.overflows == 0 ==> s.nodes == s.names)
    && (s.overflows > 0 ==> s.eof)
  }

  lemma InvStart()
    ensures Inv(START)
  {
  }

  lemma InvPush(cfg: Config, s: State, v: string)
    requires Inv(s)
    requires v == "html" ==> s.names == []
    requires v == "head" ==> |s.names| == 1
    requires v == "body" ==> "body" !in s.names
    ensures Inv(Push(cfg, s, v))
  {
  }

  lemma InvPop(s: State)
    requires Inv(s)
    ensures Inv(Pop(s))
  {
    if s.names != [] {
      forall x | x in DropLast(s.names) ensures x in s.names {
      }
    }
  }

  lemma {:induction false} InvPopTo(s: State, n: nat)
    requires Inv(s) && n <= |s.names|
    ensures Inv(PopTo(s, n)) && PopTo(s, n).names == s.names[..n]
    ensures PopTo(s, n) == s.(names := PopTo(s, n).names, nodes := PopTo(s, n).nodes)
    decreases |s.names| - n
  {
    if n < |s.names| {
      InvPop(s);
      InvPopTo(Pop(s), n);
      assert Pop(s).names[..n] == s.names[..n];
    } else {
      assert s.names[..n] == s.names;
    }
  }

  /** Auto-closing removes a suffix of elements the tag closes, and all it can. */
  lemma {:induction false} AutoCloseIsPopTo(cfg: Config, s: State, tag: string) returns (n: nat)
    ensures n <= |s.names| && AutoClose(cfg, s, tag) == PopTo(s, n)
    ensures forall i :: n <= i < |s.names| ==> cfg.closes(tag, s.names[i])
    ensures n > 0 ==> !cfg.closes(tag, s.names[n - 1])
    decreases |s.names|
  {
    if s.names != [] && cfg.closes(tag, Top(s).value) {
      n := AutoCloseIsPopTo(cfg, Pop(s), tag);
      forall i | n <= i < |s.names| ensures cfg.closes(tag, s.names[i]) {
        if i < |s.names| - 1 { assert Pop(s).names[i] == s.names[i]; }
      }
    } else {
      n := |s.names|;
    }
  }

  lemma InvAutoClose(cfg: Config, s: State, tag: string)
    requires Inv(s)
    ensures Inv(AutoClose(cfg, s, tag))
  {
    var n := AutoCloseIsPopTo(cfg, s, tag);
    InvPopTo(s, n);
  }

  lemma InvCheckImplied(cfg: Config, s: State, tag: string)
    requires Inv(s)
    ensures Inv(CheckImplied(cfg, s, tag))
  {
    if s.names == [] { InvPush(cfg, s, "html"); }
    var t := ImplyHtml(cfg, s);
    if |t.names| == 1 { InvPush(cfg, t, "head"); }
    if "body" !in t.names { InvPush(cfg, t, "body"); }
  }

  lemma {:induction false} CountPresent(names: seq<string>, v: string)
    ensures Count(names, v) > 0 <==> v in names
    ensures (forall i, j :: 0 <= i < j < |names| ==> !(names[i] == v && names[j] == v)) ==> Count(names, v) <= 1
  {
    if names != [] {
      var rest := names[..|names| - 1];
      CountPresent(rest, v);
      assert forall i :: 0 <= i < |rest| ==> rest[i] == names[i];
      assert names == rest + [names[|names| - 1]];
    }
  }

  lemma InvOpenTag(cfg: Config, s: State, tag: string)
    requires Inv(s)
    ensures Inv(OpenTag(cfg, s, tag))
  {
    InvAutoClose(cfg, s, tag);
    var c := AutoClose(cfg, s, tag);
    InvCheckImplied(cfg, c, tag);
    var t := CheckImplied(cfg, c, tag);
    CountPresent(t.names, "body");
    if Misplaced(t.names, tag) == 0 { InvPush(cfg, t, tag); }
  }

  lemma InvStep(cfg: Config, s: State, e: Event)
    requires Inv(s)
    ensures Inv(Step(cfg, s, e))
  {
    match e {
      case StartTag(tag, end) =>
        InvAutoClose(cfg, s, tag);
        var c := AutoClose(cfg, s, tag);
        InvOpenTag(cfg, c, tag);
        InvPop(OpenTag(cfg, c, tag));
      case NamelessTag =>
      case EndTag(tag) =>
        CloseTargetInside(cfg, s.names, tag);
        var target := CloseTarget(cfg, s.names, tag);
        if target.Some? { InvPopTo(s, target.value); }
      case Characters =>
        InvAutoClose(cfg, s, "p");
        var c := AutoClose(cfg, s, "p");
        InvCheckImplied(cfg, c, "p");
        InvPush(cfg, CheckImplied(cfg, c, "p"), "p");
      case EndOfInput =>
        InvPopTo(s, 0);
    }
  }

  lemma {:induction false} InvRun(cfg: Config, s: State, events: seq<Event>)
    requires Inv(s)
    ensures Inv(Run(cfg, s, events))
    decreases |events|
  {
    if events != [] && !s.eof {
      InvStep(cfg, s, events[0]);
      InvRun(cfg, Step(cfg, s, events[0]), events[1..]);
    }
  }

  /** Whatever the document: "html" is only ever at the bottom, "head" only right above it, "body"
      open at most once; head and body are implied at most once each; and the depth marker is the
      number of discarded structural start tags minus the end tags absorbed for them. */
  lemma EveryRun(cfg: Config, events: seq<Event>)
    ensures Inv(Run(cfg, START, events))
  {
    InvStart();
    InvRun(cfg, START, events);
  }

  // ----- the root

  predicate Rooted(s: State) { s.names == [] || s.names[0] == "html" }

  lemma RootedStep(cfg: Config, s: State, e: Event)
    requires !cfg.noImplied && cfg.omittedDefault && Inv(s) && Rooted(s)
    ensures Rooted(Step(cfg, s, e))
  {
    match e {
      case StartTag(tag, end) =>
        RootedClose(cfg, s, tag);
        RootedOpenTag(cfg, AutoClose(cfg, s, tag), tag);
      case NamelessTag =>
      case EndTag(tag) =>
        CloseTargetInside(cfg, s.names, tag);
        var target := CloseTarget(cfg, s.names, tag);
        if target.Some? { InvPopTo(s, target.value); }
      case Characters =>
        RootedClose(cfg, s, "p");
        RootedImplied(cfg, AutoClose(cfg, s, "p"), "p");
      case EndOfInput =>
        InvPopTo(s, 0);
    }
  }

  lemma RootedClose(cfg: Config, s: State, tag: string)
    requires Inv(s) && Rooted(s)
    ensures Rooted(AutoClose(cfg, s, tag)) && Inv(AutoClose(cfg, s, tag))
  {
    var n := AutoCloseIsPopTo(cfg, s, tag);
    InvPopTo(s, n);
  }

  lemma RootedImplied(cfg: Config, s: State, tag: string)
    requires !cfg.noImplied && cfg.omittedDefault && Rooted(s)
    ensures var t := CheckImplied(cfg, s, tag);
            Rooted(t) && (tag != "html" ==> t.names != [] && t.names[0] == "html")
  {
    var t := ImplyHtml(cfg, s);
    assert t.names != [] && t.names[0] == "html";
  }

  lemma RootedOpenTag(cfg: Config, s: State, tag: string)
    requires !cfg.noImplied && cfg.omittedDefault && Inv(s) && Rooted(s)
    ensures Rooted(OpenTag(cfg, s, tag)) && Rooted(Pop(OpenTag(cfg, s, tag)))
  {
    RootedClose(cfg, s, tag);
    var c := AutoClose(cfg, s, tag);
    RootedImplied(cfg, c, tag);
    RootedPush(cfg, CheckImplied(cfg, c, tag), tag);
  }

  lemma RootedPush(cfg: Config, s: State, tag: string)
    requires Rooted(s) && (s.names != [] || tag == "html")
    ensures Rooted(Push(cfg, s, tag)) && Rooted(Pop(Push(cfg, s, tag))) && Rooted(Pop(s))
  {
  }

  /** Unless implied tags are switched off, the bottom of a non-empty stack is always "html". */
  lemma {:induction false} RootedRun(cfg: Config, s: State, events: seq<Event>)
    requires !cfg.noImplied && cfg.omittedDefault && Inv(s) && Rooted(s)
    ensures Rooted(Run(cfg, s, events))
    decreases |events|
  {
    if events != [] && !s.eof {
      RootedStep(cfg, s, events[0]);
      InvStep(cfg, s, events[0]);
      RootedRun(cfg, Step(cfg, s, events[0]), events[1..]);
    }
  }

  // ----- the node stack

  /** A push keeps the two stacks the same exactly when the tree is not yet too deep. */
  lemma PushKeepsNodes(cfg: Config, s: State, v: string)
    requires s.nodes == s.names
    ensures Push(cfg, s, v).nodes == Push(cfg, s, v).names <==> |s.names| <= XML_PARSER_MAX_DEPTH || cfg.huge
  {
    assert |Push(cfg, s, v).names| == |s.names| + 1;
  }

  /** The names have no nodes for as many as were refused, and those come on top of more nodes than one
      step can pop. */
  ghost predicate Gap(cfg: Config, s: State)
  {
    && |s.names| == |s.nodes| + s.overflows && (s.eof <==> s.overflows > 0)
    && (s.overflows > 0 ==> !cfg.huge && |s.nodes| > XML_PARSER_MAX_DEPTH)
  }

  lemma GapPush(cfg: Config, s: State, v: string)
    requires Gap(cfg, s)
    ensures Gap(cfg, Push(cfg, s, v))
  {
  }

  lemma GapImplied(cfg: Config, s: State, tag: string)
    requires Gap(cfg, s)
    ensures Gap(cfg, CheckImplied(cfg, s, tag))
  {
    GapPush(cfg, s, "html");
    var t := ImplyHtml(cfg, s);
    GapPush(cfg, t, "head");
    GapPush(cfg, t, "body");
  }

  lemma GapClose(cfg: Config, s: State, tag: string)
    requires Inv(s) && !s.eof
    ensures var t := AutoClose(cfg, s, tag); Gap(cfg, t) && Inv(t) && !t.eof
  {
    var n := AutoCloseIsPopTo(cfg, s, tag);
    InvPopTo(s, n);
    CloseGoesOn(cfg, s, tag);
  }

  ghost predicate OnlyIfRefused(s: State) { s.eof <==> |s.names| != |s.nodes| }

  lemma GapMeans(cfg: Config, s: State)
    requires Gap(cfg, s)
    ensures OnlyIfRefused(s) && OnlyIfRefused(Pop(s))
  {
  }

  lemma GapElement(cfg: Config, s: State, tag: string, end: TagEnd)
    requires Inv(s) && !s.eof
    ensures OnlyIfRefused(Element(cfg, s, tag, end))
  {
    GapClose(cfg, s, tag);
    var d := CheckImplied(cfg, AutoClose(cfg, s, tag), tag);
    GapImplied(cfg, AutoClose(cfg, s, tag), tag);
    GapPush(cfg, d, tag);
    GapMeans(cfg, PlaceTag(cfg, d, tag));
  }

  lemma GapPopTo(s: State, n: nat)
    requires Inv(s) && !s.eof && n <= |s.names|
    ensures OnlyIfRefused(PopTo(s, n))
  {
    InvPopTo(s, n);
    PopToGoesOn(s, n);
  }

  lemma GapParagraph(cfg: Config, s: State)
    requires Inv(s) && !s.eof
    ensures OnlyIfRefused(ImplyParagraph(cfg, s))
  {
    var c := AutoClose(cfg, s, "p");
    GapClose(cfg, s, "p");
    GapImplied(cfg, c, "p");
    GapPush(cfg, CheckImplied(cfg, c, "p"), "p");
    GapMeans(cfg, ImplyParagraph(cfg, s));
  }

  /** After any step the stacks differ in length exactly if a node was refused in it. */
  lemma GapStep(cfg: Config, s: State, e: Event)
    requires Inv(s) && !s.eof
    ensures OnlyIfRefused(Step(cfg, s, e))
  {
    match e {
      case StartTag(tag, end) =>
        GapClose(cfg, s, tag);
        GapElement(cfg, AutoClose(cfg, s, tag), tag, end);
      case NamelessTag =>
      case EndTag(tag) =>
        CloseTargetInside(cfg, s.names, tag);
        var target := CloseTarget(cfg, s.names, tag);
        if target.Some? { GapPopTo(s, target.value); }
      case Characters =>
        GapParagraph(cfg, s);
      case EndOfInput =>
        GapPopTo(s, 0);
    }
  }

  /** The name stack and the node stack agree in exactly those states of a run in which the tree builder
      has not given up on the depth of the document; with the huge option it never does. */
  lemma {:induction false} NodesFollowNames(cfg: Config, s: State, events: seq<Event>)
    requires Inv(s) && !s.eof
    ensures var t := Run(cfg, s, events);
            && (t.nodes == t.names <==> !t.eof)
            && (cfg.huge ==> !t.eof)
    decreases |events|
  {
    if cfg.huge { NeverStops(cfg, s, events); }
    if events != [] {
      var next := Step(cfg, s, events[0]);
      GapStep(cfg, s, events[0]);
      InvStep(cfg, s, events[0]);
      if !next.eof { NodesFollowNames(cfg, next, events[1..]); }
    }
  }

  lemma {:induction false} NeverStops(cfg: Config, s: State, events: seq<Event>)
    requires cfg.huge && !s.eof && s.overflows == 0
    ensures !Run(cfg, s, events).eof && Run(cfg, s, events).overflows == 0
    decreases |events|
  {
    if events != [] {
      StepGoesOn(cfg, s, events[0]);
      NeverStops(cfg, Step(cfg, s, events[0]), events[1..]);
    }
  }

  lemma StepGoesOn(cfg: Config, s: State, e: Event)
    requires cfg.huge && !s.eof && s.overflows == 0
    ensures !Step(cfg, s, e).eof && Step(cfg, s, e).overflows == 0
  {
    match e {
      case StartTag(tag, end) =>
        CloseGoesOn(cfg, s, tag);
        CloseGoesOn(cfg, AutoClose(cfg, s, tag), tag);
        ImplyGoesOn(cfg, AutoClose(cfg, AutoClose(cfg, s, tag), tag), tag);
      case NamelessTag =>
      case EndTag(tag) =>
        CloseTargetInside(cfg, s.names, tag);
        var target := CloseTarget(cfg, s.names, tag);
        if target.Some? { PopToGoesOn(s, target.value); }
      case Characters =>
        CloseGoesOn(cfg, s, "p");
        ImplyGoesOn(cfg, AutoClose(cfg, s, "p"), "p");
      case EndOfInput =>
        PopToGoesOn(s, 0);
    }
  }

  lemma ImplyGoesOn(cfg: Config, s: State, tag: string)
    requires cfg.huge && !s.eof && s.overflows == 0
    ensures !CheckImplied(cfg, s, tag).eof && CheckImplied(cfg, s, tag).overflows == 0
  {
  }

  lemma {:induction false} PopToGoesOn(s: State, n: nat)
    requires n <= |s.names|
    ensures PopTo(s, n).eof == s.eof && PopTo(s, n).overflows == s.overflows
    decreases |s.names| - n
  {
    if n < |s.names| { PopToGoesOn(Pop(s), n); }
  }

  lemma CloseGoesOn(cfg: Config, s: State, tag: string)
    ensures AutoClose(cfg, s, tag).eof == s.eof && AutoClose(cfg, s, tag).overflows == s.overflows
  {
    var n := AutoCloseIsPopTo(cfg, s, tag);
    PopToGoesOn(s, n);
  }

  /** A tag that is implied nothing but a body, closes neither it nor itself, and has content. */
  ghost predicate Ordinary(cfg: Config, tag: string)
  {
    && !cfg.noImplied && cfg.omittedDefault && !cfg.emptyElement(tag)
    && !Structural(tag) && !HeadContent(tag) && !FrameContent(tag)
    && !cfg.closes(tag, "html") && !cfg.closes(tag, "body") && !cfg.closes(tag, tag)
  }

  /** Without the huge option the agreement does end: 256 nested elements of an ordinary kind leave a
      name without a node. */
  lemma DeepDocument(cfg: Config, tag: string, s: State)
    requires !cfg.huge && Ordinary(cfg, tag)
    requires s == Run(cfg, START, seq(256, _ => StartTag(tag, Closed)))
    ensures s.eof && |s.names| == 258 && |s.nodes| == 257
  {
    FirstOrdinary(cfg, tag, START);
    DeepFrom(cfg, START, tag);
  }

  lemma FirstOrdinary(cfg: Config, tag: string, s: State)
    requires !cfg.huge && Ordinary(cfg, tag) && s == START
    ensures var first := Step(cfg, s, StartTag(tag, Closed));
            first.names == ["html", "body", tag] && first.nodes == first.names && first.html == 10 && !first.eof
  {
    var html := Push(cfg, s, "html");
    assert html.names == ["html"] && html.nodes == ["html"];
    var body := Push(cfg, html, "body");
    assert body.names == ["html", "body"] && body.nodes == ["html", "body"];
    assert AutoClose(cfg, s, tag) == s;
    assert CheckImplied(cfg, s, tag) == body.(impliedBodies := 1);
  }

  lemma DeepFrom(cfg: Config, s: State, tag: string)
    requires !cfg.huge && Ordinary(cfg, tag) && !s.eof
    requires var first := Step(cfg, s, StartTag(tag, Closed));
             first.names == ["html", "body", tag] && first.nodes == first.names && first.html == 10 && !first.eof
    ensures var t := Run(cfg, s, seq(256, _ => StartTag(tag, Closed)));
            t.eof && |t.names| == 258 && |t.nodes| == 257
  {
    var open := StartTag(tag, Closed);
    var all := seq(256, _ => open);
    assert all[0] == open && all[1..] == seq(255, _ => open);
    Deeper(cfg, Step(cfg, s, open), tag, 255);
  }

  lemma {:induction false} Deeper(cfg: Config, s: State, tag: string, n: nat)
    requires !cfg.huge && Ordinary(cfg, tag)
    requires Top(s) == Some(tag) && s.html >= 10 && |s.names| + n == 258 && 1 < |s.names| <= 257
    requires !s.eof && s.nodes == s.names
    ensures var t := Run(cfg, s, seq(n, _ => StartTag(tag, Closed)));
            t.eof && |t.names| == 258 && |t.nodes| == 257
    decreases n
  {
    var open := StartTag(tag, Closed);
    var next := Step(cfg, s, open);
    assert seq(n, _ => open)[1..] == seq(n - 1, _ => open);
    assert next == Push(cfg, s, tag);
    if n > 1 { Deeper(cfg, next, tag, n - 1); }
  }

  // ----- what an end tag does

  /** The element an end tag finishes: the innermost one of that name, unless something with a higher
      end priority is open inside it. */
  ghost predicate ClosesAt(cfg: Config, names: seq<string>, tag: string, i: nat)
  {
    && i < |names| && names[i] == tag
    && (forall j :: i < j < |names| ==> names[j] != tag && cfg.priority(names[j]) <= cfg.priority(tag))
  }

  lemma {:induction false} CloseTargetMeans(cfg: Config, names: seq<string>, tag: string)
    ensures match CloseTarget(cfg, names, tag)
            case Some(i) => ClosesAt(cfg, names, tag, i)
            case None => forall i :: !ClosesAt(cfg, names, tag, i)
  {
    if names != [] {
      var rest := names[..|names| - 1];
      CloseTargetMeans(cfg, rest, tag);
      assert forall j :: 0 <= j < |rest| ==> rest[j] == names[j];
      forall i: nat ensures ClosesAt(cfg, names, tag, i) ==>
        i == |names| - 1 || (names[|names| - 1] != tag && cfg.priority(names[|names| - 1]) <= cfg.priority(tag) &&
          ClosesAt(cfg, rest, tag, i))
      {
      }
    }
  }

  /** An end tag that is not absorbed pops down to and including its element, or changes nothing. */
  lemma EndTagPops(cfg: Config, s: State, tag: string)
    requires Inv(s) && !(s.depth > 0 && Structural(tag))
    ensures (exists i :: ClosesAt(cfg, s.names, tag, i)) ==>
              exists i: nat :: ClosesAt(cfg, s.names, tag, i) && CloseTag(cfg, s, tag).names == s.names[..i]
    ensures (forall i :: !ClosesAt(cfg, s.names, tag, i)) ==> CloseTag(cfg, s, tag) == s
  {
    CloseTargetMeans(cfg, s.names, tag);
    CloseTargetInside(cfg, s.names, tag);
    var target := CloseTarget(cfg, s.names, tag);
    if target.Some? { InvPopTo(s, target.value); }
  }
}
