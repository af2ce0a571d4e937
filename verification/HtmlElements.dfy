/** HTMLparser.c: which elements are open after which tags. */
module HtmlElements {
  import opened Strings
  import opened HtmlStack
  import T = HtmlTables

  // ----- popping

  lemma {:induction false} PopToNames(s: State, n: nat)
    requires n <= |s.names|
    ensures PopTo(s, n).names == s.names[..n] && PopTo(s, n).html == s.html
    decreases |s.names| - n
  {
    if n < |s.names| {
      PopToNames(Pop(s), n);
      assert Pop(s).names[..n] == s.names[..n];
    }
  }

  lemma CloseNames(cfg: Config, s: State, tag: string)
    ensures AutoClose(cfg, s, tag).names <= s.names && AutoClose(cfg, s, tag).html == s.html
    ensures AutoClose(cfg, AutoClose(cfg, s, tag), tag) == AutoClose(cfg, s, tag)
  {
    var n := AutoCloseIsPopTo(cfg, s, tag);
    PopToNames(s, n);
    if n > 0 { assert s.names[..n][n - 1] == s.names[n - 1]; }
  }

  // ----- no element that is empty stays open

  ghost predicate NoneEmpty(cfg: Config, names: seq<string>) { forall v :: v in names ==> !cfg.emptyElement(v) }

  /** The elements that may be implied have content. */
  predicate ImpliedHaveContent(cfg: Config)
  {
    !cfg.emptyElement("html") && !cfg.emptyElement("head") && !cfg.emptyElement("body") && !cfg.emptyElement("p")
  }

  lemma ImpliedNotEmpty(cfg: Config, s: State, tag: string)
    requires ImpliedHaveContent(cfg) && NoneEmpty(cfg, s.names)
    ensures NoneEmpty(cfg, CheckImplied(cfg, s, tag).names)
  {
  }

  lemma OpenedNames(cfg: Config, s: State, tag: string)
    ensures var u := CheckImplied(cfg, AutoClose(cfg, s, tag), tag);
            OpenTag(cfg, s, tag).names == if Misplaced(u.names, tag) > 0 then u.names else u.names + [tag]
  {
  }

  lemma ElementNotEmpty(cfg: Config, s: State, tag: string, end: TagEnd)
    requires ImpliedHaveContent(cfg) && NoneEmpty(cfg, s.names)
    ensures NoneEmpty(cfg, Element(cfg, s, tag, end).names)
  {
    CloseNames(cfg, s, tag);
    var c := AutoClose(cfg, s, tag);
    ImpliedNotEmpty(cfg, c, tag);
    var u := CheckImplied(cfg, c, tag);
    OpenedNames(cfg, s, tag);
    FinishedNotEmpty(cfg, OpenTag(cfg, s, tag), u.names, tag, end);
  }

  lemma FinishedNotEmpty(cfg: Config, t: State, names: seq<string>, tag: string, end: TagEnd)
    requires NoneEmpty(cfg, names) && (t.names == names || t.names == names + [tag])
    ensures var r := if t.names == [] then t else if !end.Closed? || cfg.emptyElement(Top(t).value) then Pop(t) else t;
            NoneEmpty(cfg, r.names)
  {
    assert DropLast(names + [tag]) == names;
    assert names != [] ==> DropLast(names) == names[..|names| - 1];
    assert t.names == names + [tag] ==> Top(t) == Some(tag);
  }

  lemma StepNotEmpty(cfg: Config, s: State, e: Event)
    requires ImpliedHaveContent(cfg) && NoneEmpty(cfg, s.names)
    ensures NoneEmpty(cfg, Step(cfg, s, e).names)
  {
    match e {
      case StartTag(tag, end) =>
        CloseNames(cfg, s, tag);
        ElementNotEmpty(cfg, AutoClose(cfg, s, tag), tag, end);
      case NamelessTag =>
      case EndTag(tag) =>
        CloseTargetInside(cfg, s.names, tag);
        var target := CloseTarget(cfg, s.names, tag);
        if target.Some? { PopToNames(s, target.value); }
      case Characters =>
        CloseNames(cfg, s, "p");
        ImpliedNotEmpty(cfg, AutoClose(cfg, s, "p"), "p");
      case EndOfInput =>
        PopToNames(s, 0);
    }
  }

  /** Over every run no element that is declared empty stays open. */
  lemma {:induction false} RunNotEmpty(cfg: Config, s: State, events: seq<Event>)
    requires ImpliedHaveContent(cfg) && NoneEmpty(cfg, s.names)
    ensures NoneEmpty(cfg, Run(cfg, s, events).names)
    decreases |events|
  {
    if events != [] && !s.eof {
      StepNotEmpty(cfg, s, events[0]);
      RunNotEmpty(cfg, Step(cfg, s, events[0]), events[1..]);
    }
  }

  // ----- what a start tag leaves open

  /** The state in which a start tag finds its place. */
  function Prepared(cfg: Config, s: State, tag: string): State
  {
    CheckImplied(cfg, AutoClose(cfg, s, tag), tag)
  }

  lemma PlacedThenClosed(cfg: Config, u: State, tag: string)
    requires Misplaced(u.names, tag) == 0
    ensures var p := PlaceTag(cfg, u, tag);
            && p.names == u.names + [tag] && Top(p) == Some(tag) && Pop(p).names == u.names
            && (cfg.huge || |u.nodes| <= 256 ==> p.nodes == u.nodes + [tag] && Pop(p).nodes == u.nodes)
  {
  }

  /** A start tag that is placed leaves one more element open if it is closed and the element has content,
      and otherwise what was open before it was placed; the node stack does likewise unless the node is
      refused. */
  lemma StartTagLeaves(cfg: Config, s: State, tag: string, end: TagEnd)
    requires Misplaced(Prepared(cfg, s, tag).names, tag) == 0
    ensures var u, t := Prepared(cfg, s, tag), Step(cfg, s, StartTag(tag, end));
            var stays := end == Closed && !cfg.emptyElement(tag);
            && t.names == (if stays then u.names + [tag] else u.names)
            && (cfg.huge || |u.nodes| <= 256 ==> t.nodes == if stays then u.nodes + [tag] else u.nodes)
  {
    CloseNames(cfg, s, tag);
    PlacedThenClosed(cfg, Prepared(cfg, s, tag), tag);
  }

  /** A misplaced one leaves no more open than there was. */
  lemma MisplacedLeaves(cfg: Config, s: State, tag: string, end: TagEnd)
    requires Misplaced(Prepared(cfg, s, tag).names, tag) > 0
    ensures Step(cfg, s, StartTag(tag, end)).names <= Prepared(cfg, s, tag).names
  {
    CloseNames(cfg, s, tag);
  }

  /** An end tag of html, head or body is absorbed while a misplaced start tag has none yet. */
  lemma EndTagAbsorbed(cfg: Config, s: State, tag: string)
    ensures tag in ["html", "head", "body"] && s.depth > 0 ==>
              Step(cfg, s, EndTag(tag)).names == s.names && Step(cfg, s, EndTag(tag)).nodes == s.nodes
              && Step(cfg, s, EndTag(tag)).depth == s.depth - 1
    ensures tag !in ["html", "head", "body"] || s.depth == 0 ==> Step(cfg, s, EndTag(tag)).depth == s.depth
  {
    CloseTargetInside(cfg, s.names, tag);
    if CloseTarget(cfg, s.names, tag).Some? { PopToDepth(s, CloseTarget(cfg, s.names, tag).value); }
  }

  lemma {:induction false} PopToDepth(s: State, n: nat)
    requires n <= |s.names|
    ensures PopTo(s, n).depth == s.depth
    decreases |s.names| - n
  {
    if n < |s.names| { PopToDepth(Pop(s), n); }
  }

  // ----- what is implied

  /** Which of html, head and body a start tag implies: html in an empty document; head if there is
      nothing but html yet, for what belongs there; body for everything else but frames, unless one of the
      two is open or a body has been before. */
  lemma ImpliedExactly(cfg: Config, s: State, tag: string)
    requires !cfg.noImplied && cfg.omittedDefault && tag != "html"
    ensures var base := if s.names == [] then ["html"] else s.names;
            var forHead := |base| == 1 && tag in ["script", "style", "meta", "link", "title", "base"];
            var u := CheckImplied(cfg, s, tag);
            && (tag in ["head", "body"] ==> u.names == base)
            && (tag !in ["head", "body"] && forHead ==> u.names == base + if s.html < 3 then ["head"] else [])
            && (tag in ["noframes", "frame", "frameset"] ==> u.names == base)
            && (tag !in ["head", "body", "noframes", "frame", "frameset"] && !forHead ==>
                  u.names == base + if s.html < 10 && "body" !in base && "head" !in base then ["body"] else [])
  {
    assert ImplyHtml(cfg, s).names == if s.names == [] then ["html"] else s.names;
    assert ImplyHtml(cfg, s).html == s.html;
  }

  /** With implied tags switched off, or with options of its own, nothing is. */
  lemma NothingImplied(cfg: Config, s: State, tag: string)
    requires cfg.noImplied || !cfg.omittedDefault || tag == "html"
    ensures CheckImplied(cfg, s, tag) == s
  {
  }

  /** The marker only moves on, and past 3 and 10 where head and body are opened. */
  predicate Marks(s: State, t: State)
  {
    && t.html >= s.html
    && ("head" in t.names && "head" !in s.names ==> t.html >= 3)
    && ("body" in t.names && "body" !in s.names ==> t.html >= 10)
  }

  lemma PushMarks(cfg: Config, s: State, v: string)
    ensures Marks(s, Push(cfg, s, v))
  {
  }

  lemma MarksOn(s: State, t: State, u: State)
    requires Marks(s, t) && Marks(t, u)
    ensures Marks(s, u)
  {
  }

  lemma ImpliedMarks(cfg: Config, s: State, tag: string)
    ensures Marks(s, CheckImplied(cfg, s, tag))
  {
    var h := ImplyHtml(cfg, s);
    PushMarks(cfg, s, "html");
    PushMarks(cfg, h, "head");
    PushMarks(cfg, h, "body");
  }

  lemma StepMarks(cfg: Config, s: State, e: Event)
    ensures Marks(s, Step(cfg, s, e))
  {
    match e {
      case StartTag(tag, end) =>
        CloseNames(cfg, s, tag);
        var c := AutoClose(cfg, s, tag);
        ImpliedMarks(cfg, c, tag);
        PushMarks(cfg, CheckImplied(cfg, c, tag), tag);
        assert Marks(s, Pop(OpenTag(cfg, s, tag)));
      case NamelessTag =>
      case EndTag(tag) =>
        CloseTargetInside(cfg, s.names, tag);
        var target := CloseTarget(cfg, s.names, tag);
        if target.Some? { PopToNames(s, target.value); }
      case Characters =>
        CloseNames(cfg, s, "p");
        var c := AutoClose(cfg, s, "p");
        ImpliedMarks(cfg, c, "p");
        PushMarks(cfg, CheckImplied(cfg, c, "p"), "p");
      case EndOfInput =>
        PopToNames(s, 0);
    }
  }


  lemma {:induction false} RunMarks(cfg: Config, s: State, events: seq<Event>)
    ensures Marks(s, Run(cfg, s, events))
    decreases |events|
  {
    if events != [] && !s.eof {
      var t := Step(cfg, s, events[0]);
      StepMarks(cfg, s, events[0]);
      RunMarks(cfg, t, events[1..]);
      MarksOn(s, t, Run(cfg, t, events[1..]));
    }
  }

  /** Once head or body has been open in a run, the marker says so for good, and it is not implied again. */
  lemma MarkedForGood(cfg: Config, before: seq<Event>, after: seq<Event>)
    ensures var t := Run(cfg, START, before);
            var u := Run(cfg, t, after);
            ("head" in t.names ==> u.html >= 3) && ("body" in t.names ==> u.html >= 10)
  {
    RunMarks(cfg, START, before);
    RunMarks(cfg, Run(cfg, START, before), after);
  }

  predicate Implying(cfg: Config) { !cfg.noImplied && cfg.omittedDefault }

  /** What is open once the first tag of a document has found its place. */
  function FirstOpen(tag: string): seq<string>
  {
    if tag == "html" then []
    else if tag in ["head", "body", "noframes", "frame", "frameset"] then ["html"]
    else if tag in ["script", "style", "meta", "link", "title", "base"] then ["html", "head"]
    else ["html", "body"]
  }

  lemma Pushed(cfg: Config, s: State, v: string)
    requires |s.nodes| <= 256
    ensures var t := Push(cfg, s, v); t.names == s.names + [v] && t.nodes == s.nodes + [v] && t.eof == s.eof
  {
  }

  lemma FirstHtml(cfg: Config) returns (h: State)
    ensures h == ImplyHtml(cfg, START) && h.names == ["html"] && h.nodes == h.names && h.html == 1 && !h.eof
  {
    h := ImplyHtml(cfg, START);
    Pushed(cfg, START, "html");
    assert [] + ["html"] == ["html"];
  }

  lemma FirstHead(cfg: Config, h: State)
    requires h.names == ["html"] && h.nodes == h.names && h.html == 1 && !h.eof
    ensures var u := ImplyHead(cfg, h); u.names == ["html", "head"] && u.nodes == u.names && !u.eof
    ensures var u := ImplyBody(cfg, h); u.names == ["html", "body"] && u.nodes == u.names && !u.eof
  {
    Pushed(cfg, h, "head");
    Pushed(cfg, h, "body");
    assert "body" !in h.names && "head" !in h.names;
    assert ["html"] + ["head"] == ["html", "head"] && ["html"] + ["body"] == ["html", "body"];
  }

  lemma FirstOpenByKind(tag: string)
    ensures FirstOpen(tag) ==
            if tag == "html" then [] else if tag == "body" || tag == "head" then ["html"]
            else if HeadContent(tag) then ["html", "head"] else if FrameContent(tag) then ["html"] else ["html", "body"]
  {
  }

  lemma PreparedByKind(cfg: Config, tag: string, h: State)
    requires Implying(cfg) && tag != "html" && h == ImplyHtml(cfg, START) && |h.names| == 1
    ensures Prepared(cfg, START, tag) ==
            if tag == "body" || tag == "head" then h else if HeadContent(tag) then ImplyHead(cfg, h)
            else if FrameContent(tag) then h else ImplyBody(cfg, h)
  {
    assert AutoClose(cfg, START, tag) == START;
  }

  lemma FirstPrepared(cfg: Config, tag: string)
    requires Implying(cfg)
    ensures var u := Prepared(cfg, START, tag); u.names == FirstOpen(tag) && u.nodes == u.names && !u.eof
  {
    FirstOpenByKind(tag);
    if tag == "html" {
      assert AutoClose(cfg, START, tag) == START;
    } else {
      var h := FirstHtml(cfg);
      FirstHead(cfg, h);
      PreparedByKind(cfg, tag, h);
    }
  }

  lemma FirstPlaced(tag: string)
    ensures Misplaced(FirstOpen(tag), tag) == 0
  {
    if tag == "body" {
      assert ["html"][..0] == [] && Count(["html"], "body") == 0;
    }
  }

  /** The first tag of a document is placed in the elements that it implies. */
  lemma FirstTag(cfg: Config, tag: string, end: TagEnd)
    requires Implying(cfg)
    ensures var t := Step(cfg, START, StartTag(tag, end));
            && t.names == FirstOpen(tag) + (if end == Closed && !cfg.emptyElement(tag) then [tag] else [])
            && t.nodes == t.names
  {
    FirstPrepared(cfg, tag);
    FirstPlaced(tag);
    StartTagLeaves(cfg, START, tag, end);
  }

  /** So are characters, in a paragraph. */
  lemma FirstCharacters(cfg: Config)
    requires Implying(cfg)
    ensures Step(cfg, START, Characters).names == ["html", "body", "p"]
  {
    FirstPrepared(cfg, "p");
    assert ["html", "body"] + ["p"] == ["html", "body", "p"];
  }

  /** Characters directly in html or head, or in nothing at all, start a paragraph; elsewhere they change
      nothing. */
  lemma CharactersOpen(cfg: Config, s: State)
    ensures if s.names == [] || (cfg.omittedDefault && s.names[|s.names| - 1] in ["html", "head"])
            then Top(Step(cfg, s, Characters)) == Some("p") else Step(cfg, s, Characters) == s
  {
  }

  /** Without implied tags the first tag stands alone. */
  lemma FirstTagAlone(cfg: Config, tag: string)
    requires cfg.noImplied && tag != "head" && !cfg.emptyElement(tag)
    ensures Step(cfg, START, StartTag(tag, Closed)).names == [tag]
  {
    assert Count([], "body") == 0;
    StartTagLeaves(cfg, START, tag, Closed);
    assert [] + [tag] == [tag];
  }

  lemma BreakClosesNothing()
    ensures !T.HTML.closes("br", "p") && T.HTML.emptyElement("br")
    ensures !T.HTML.emptyElement("p") && Implying(T.HTML)
  {
    assert T.ListClose("br") == T.TableClose("br") == T.InlineClose("br") == ["head"];
  }

  lemma InParagraph(cfg: Config, s: State, tag: string)
    requires s.names == ["html", "body", "p"] && !cfg.closes(tag, "p") && cfg.emptyElement(tag)
    requires tag != "html" && tag != "head" && tag != "body"
    ensures Step(cfg, s, StartTag(tag, Closed)).names == s.names
  {
    assert Top(s) == Some("p") && AutoClose(cfg, s, tag) == s;
    assert s.names[0] == "html" && s.names[1] == "body";
    assert CheckImplied(cfg, s, tag) == s;
    StartTagLeaves(cfg, s, tag, Closed);
  }

  lemma RunOne(cfg: Config, s: State, events: seq<Event>)
    requires |events| == 1
    ensures Run(cfg, s, events) == if s.eof then s else Step(cfg, s, events[0])
  {
    assert events[1..] == [];
  }

  lemma RunTwo(cfg: Config, s: State, events: seq<Event>)
    requires |events| == 2 && !s.eof
    ensures var t := Step(cfg, s, events[0]); Run(cfg, s, events) == if t.eof then t else Step(cfg, t, events[1])
  {
    assert events[1..][0] == events[1];
    RunOne(cfg, Step(cfg, s, events[0]), events[1..]);
  }

  /** An empty element in a paragraph is closed at once, as "br" is with the tables of the source. */
  lemma EmptyInParagraph(cfg: Config, tag: string, events: seq<Event>)
    requires Implying(cfg) && !cfg.emptyElement("p") && !cfg.closes(tag, "p") && cfg.emptyElement(tag)
    requires tag != "html" && tag != "head" && tag != "body"
    requires |events| == 2 && events[0] == StartTag("p", Closed) && events[1] == StartTag(tag, Closed)
    ensures Run(cfg, START, events).names == ["html", "body", "p"]
  {
    FirstTag(cfg, "p", Closed);
    FirstOpenByKind("p");
    var s := Step(cfg, START, events[0]);
    assert s.names == ["html", "body"] + ["p"] == ["html", "body", "p"];
    InParagraph(cfg, s, tag);
    RunTwo(cfg, START, events);
  }
}
