/** HTMLparser.c and SAX2.c: the parser context that the stack operations update in place. */
module HtmlParser {
  import opened Strings
  import opened HtmlStack

  class ParserCtxt {
    const cfg: Config
    var nameTab: seq<string>
    var name: Option<string>
    var html: nat
    var depth: nat
    var nodeTab: seq<string>
    var node: Option<string>
    var eof: bool
    ghost var discarded: nat
    ghost var absorbed: nat
    ghost var impliedHeads: nat
    ghost var impliedBodies: nat
    ghost var overflows: nat

    constructor (cfg: Config)
      ensures Valid() && Abs() == START && this.cfg == cfg
    {
      this.cfg := cfg;
      nameTab, name, html, depth := [], None, 1, 0;
      nodeTab, node, eof := [], None, false;
      discarded, absorbed, impliedHeads, impliedBodies, overflows := 0, 0, 0, 0, 0;
    }

    /** `name` and `node` are the tops of their stacks. */
    predicate Valid()
      reads this
    {
      && name == (if nameTab == [] then None else Some(nameTab[|nameTab| - 1]))
      && node == (if nodeTab == [] then None else Some(nodeTab[|nodeTab| - 1]))
    }

    ghost function Abs(): State
      reads this
    {
      State(nameTab, html, depth, nodeTab, eof, discarded, absorbed, impliedHeads, impliedBodies, overflows)
    }

    // ----- htmlnamePush, htmlnamePop, nodePush, nodePop

    method NamePush(value: string)
      requires Valid()
      modifies this`nameTab, this`name, this`html
      ensures Valid()
      ensures Abs() == old(Abs()).(names := old(nameTab) + [value], html := HtmlAfterPush(old(html), value))
    {
      if html < 3 && value == "head" {
        html := 3;
      }
      if html < 10 && value == "body" {
        html := 10;
      }
      nameTab := nameTab + [value];
      name := Some(value);
    }

    method NamePop() returns (ret: Option<string>)
      requires Valid()
      modifies this`nameTab, this`name
      ensures Valid() && ret == old(name)
      ensures Abs() == old(Abs()).(names := DropLast(old(nameTab)))
    {
      if |nameTab| <= 0 {
        return None;
      }
      ret := Some(nameTab[|nameTab| - 1]);
      nameTab := nameTab[..|nameTab| - 1];
      name := if |nameTab| > 0 then Some(nameTab[|nameTab| - 1]) else None;
    }

    method NodePush(value: string)
      requires Valid()
      modifies this`nodeTab, this`node, this`eof, this`overflows
      ensures Valid()
      ensures Abs() == if |old(nodeTab)| > XML_PARSER_MAX_DEPTH && !cfg.huge
                       then old(Abs()).(eof := true, overflows := old(overflows) + 1)
                       else old(Abs()).(nodes := old(nodeTab) + [value])
    {
      if |nodeTab| > XML_PARSER_MAX_DEPTH && !cfg.huge {
        eof := true;
        overflows := overflows + 1;
        return;
      }
      nodeTab := nodeTab + [value];
      node := Some(value);
    }

    method NodePop()
      requires Valid()
      modifies this`nodeTab, this`node
      ensures Valid()
      ensures Abs() == old(Abs()).(nodes := DropLast(old(nodeTab)))
    {
      if |nodeTab| <= 0 {
        return;
      }
      nodeTab := nodeTab[..|nodeTab| - 1];
      node := if |nodeTab| > 0 then Some(nodeTab[|nodeTab| - 1]) else None;
    }

    /** A name is pushed and the start event creates its node. */
    method Open(value: string)
      requires Valid()
      modifies this`nameTab, this`name, this`html, this`nodeTab, this`node, this`eof, this`overflows
      ensures Valid() && Abs() == Push(cfg, old(Abs()), value)
    {
      NamePush(value);
      NodePush(value);
    }

    /** The end event drops the node and the name is popped. */
    method Close()
      requires Valid()
      modifies this`nameTab, this`name, this`nodeTab, this`node
      ensures Valid() && Abs() == Pop(old(Abs()))
    {
      NodePop();
      var ret := NamePop();
    }

    // ----- htmlAutoClose, htmlAutoCloseOnClose, htmlAutoCloseOnEnd

    method AutoCloseFor(newtag: string)
      requires Valid()
      modifies this`nameTab, this`name, this`nodeTab, this`node
      ensures Valid() && Abs() == AutoClose(cfg, old(Abs()), newtag)
    {
      while name.Some? && cfg.closes(newtag, name.value)
        invariant Valid()
        invariant AutoClose(cfg, Abs(), newtag) == AutoClose(cfg, old(Abs()), newtag)
        decreases |nameTab|
      {
        Close();
      }
    }

    /** Pops what is open inside the element the end tag closes, if it may close one. */
    method AutoCloseOnClose(newtag: string)
      requires Valid()
      modifies this`nameTab, this`name, this`nodeTab, this`node
      ensures Valid()
      ensures var target := CloseTarget(cfg, old(nameTab), newtag);
              if target.Some? && target.value < |old(nameTab)|
              then Abs() == PopTo(old(Abs()), target.value + 1) && |nameTab| == target.value + 1
                   && name == Some(newtag)
              else Abs() == old(Abs())
    {
      var priority := cfg.priority(newtag);
      var i := |nameTab| - 1;
      assert nameTab[..i + 1] == nameTab;
      while i >= 0
        invariant -1 <= i < |nameTab|
        invariant CloseTarget(cfg, nameTab, newtag) == CloseTarget(cfg, nameTab[..i + 1], newtag)
        invariant forall j :: i < j < |nameTab| ==> nameTab[j] != newtag
        invariant Abs() == old(Abs())
      {
        assert nameTab[..i + 1][..i] == nameTab[..i];
        if newtag == nameTab[i] {
          break;
        }
        if cfg.priority(nameTab[i]) > priority {
          return;
        }
        i := i - 1;
      }
      if i < 0 {
        return;
      }
      assert CloseTarget(cfg, old(nameTab), newtag) == Some(i);
      while name != Some(newtag)
        invariant Valid() && i < |nameTab| <= |old(nameTab)|
        invariant nameTab == old(nameTab)[..|nameTab|]
        invariant PopTo(Abs(), i + 1) == PopTo(old(Abs()), i + 1)
        decreases |nameTab|
      {
        Close();
      }
      assert |nameTab| == i + 1;
    }

    method AutoCloseOnEnd()
      requires Valid()
      modifies this`nameTab, this`name, this`nodeTab, this`node
      ensures Valid() && Abs() == PopTo(old(Abs()), 0)
    {
      var i := |nameTab| - 1;
      while i >= 0
        invariant Valid() && |nameTab| == i + 1
        invariant PopTo(Abs(), 0) == PopTo(old(Abs()), 0)
      {
        Close();
        i := i - 1;
      }
    }

    // ----- htmlCheckImplied, htmlCheckParagraph

    method CheckImpliedFor(newtag: string)
      requires Valid()
      modifies this`nameTab, this`name, this`html, this`nodeTab, this`node, this`eof, this`overflows,
          this`impliedHeads, this`impliedBodies
      ensures Valid() && Abs() == CheckImplied(cfg, old(Abs()), newtag)
    {
      if cfg.noImplied {
        return;
      }
      if !cfg.omittedDefault {
        return;
      }
      if newtag == "html" {
        return;
      }
      if |nameTab| <= 0 {
        Open("html");
      }
      if newtag == "body" || newtag == "head" {
        return;
      }
      if |nameTab| <= 1 && HeadContent(newtag) {
        ImplyHeadNow();
      } else if newtag != "noframes" && newtag != "frame" && newtag != "frameset" {
        ImplyBodyNow();
      }
    }

    method ImplyHeadNow()
      requires Valid()
      modifies this`nameTab, this`name, this`html, this`nodeTab, this`node, this`eof, this`overflows, this`impliedHeads
      ensures Valid() && Abs() == ImplyHead(cfg, old(Abs()))
    {
      if html >= 3 {
        return;
      }
      Open("head");
      impliedHeads := impliedHeads + 1;
    }

    /** A body is implied once, and not while a head or body is open. */
    method ImplyBodyNow()
      requires Valid()
      modifies this`nameTab, this`name, this`html, this`nodeTab, this`node, this`eof, this`overflows, this`impliedBodies
      ensures Valid() && Abs() == ImplyBody(cfg, old(Abs()))
    {
      if html >= 10 {
        return;
      }
      var i := 0;
      while i < |nameTab|
        invariant 0 <= i <= |nameTab|
        invariant forall j :: 0 <= j < i ==> nameTab[j] != "body" && nameTab[j] != "head"
        invariant Valid() && Abs() == old(Abs())
      {
        if nameTab[i] == "body" {
          return;
        }
        if nameTab[i] == "head" {
          return;
        }
        i := i + 1;
      }
      Open("body");
      impliedBodies := impliedBodies + 1;
    }

    method InsertParagraph()
      requires Valid()
      modifies this
      ensures Valid() && Abs() == ImplyParagraph(cfg, old(Abs()))
    {
      AutoCloseFor("p");
      CheckImpliedFor("p");
      Open("p");
    }

    method CheckParagraphFor() returns (inserted: bool)
      requires Valid()
      modifies this
      ensures Valid() && Abs() == CheckParagraph(cfg, old(Abs()))
    {
      inserted := false;
      var tag := name;
      if tag.None? {
        InsertParagraph();
        return true;
      }
      if !cfg.omittedDefault {
        return;
      }
      if tag.value == "html" || tag.value == "head" {
        InsertParagraph();
        return true;
      }
    }

    // ----- the stack part of htmlParseStartTag, htmlParseElementInternal, htmlParseEndTag

    method ParseStartTag(tag: string) returns (discardtag: bool)
      requires Valid()
      modifies this
      ensures Valid() && Abs() == OpenTag(cfg, old(Abs()), tag)
    {
      AutoCloseFor(tag);
      CheckImpliedFor(tag);
      discardtag := PlaceStartTag(tag);
    }

    method PlaceStartTag(tag: string) returns (discardtag: bool)
      requires Valid()
      modifies this
      ensures Valid() && Abs() == PlaceTag(cfg, old(Abs()), tag)
    {
      discardtag := JudgeTag(tag);
      if discardtag {
        discarded := discarded + 1;
      } else {
        Open(tag);
      }
    }

    /** Whether the tag is misplaced; the depth marker remembers it then. */
    method JudgeTag(tag: string) returns (discardtag: bool)
      requires Valid()
      modifies this`depth
      ensures Valid() && discardtag == (Misplaced(nameTab, tag) > 0)
      ensures depth == old(depth) + Misplaced(nameTab, tag)
    {
      discardtag := false;
      if |nameTab| > 0 && tag == "html" {
        discardtag := true;
        depth := depth + 1;
      }
      if |nameTab| != 1 && tag == "head" {
        discardtag := true;
        depth := depth + 1;
      }
      if tag == "body" {
        var more := CountBodies();
        if more > 0 {
          discardtag := true;
          depth := depth + more;
        }
      }
    }

    /** The scan for an open body: every one found counts. */
    method CountBodies() returns (n: nat)
      requires Valid()
      ensures n == Count(nameTab, "body")
    {
      n := 0;
      var indx := 0;
      while indx < |nameTab|
        invariant 0 <= indx <= |nameTab|
        invariant n == Count(nameTab[..indx], "body")
      {
        assert nameTab[..indx + 1][..indx] == nameTab[..indx];
        if nameTab[indx] == "body" {
          n := n + 1;
        }
        indx := indx + 1;
      }
      assert nameTab[..indx] == nameTab;
    }

    method ParseElementInternal(tag: string, end: TagEnd)
      requires Valid()
      modifies this
      ensures Valid() && Abs() == Element(cfg, old(Abs()), tag, end)
    {
      var failed := ParseStartTag(tag);
      if name.None? {
        return;
      }
      match end {
        case SelfClosed =>
          Close();
        case Unfinished =>
          NodePop();
          var ret := NamePop();
        case Closed =>
          if cfg.emptyElement(name.value) {
            Close();
          }
      }
    }

    method ParseEndTag(tag: string) returns (closed: bool)
      requires Valid()
      modifies this
      ensures Valid() && Abs() == CloseTag(cfg, old(Abs()), tag)
    {
      closed := false;
      if depth > 0 && (tag == "html" || tag == "body" || tag == "head") {
        depth := depth - 1;
        absorbed := absorbed + 1;
        return;
      }
      var i := |nameTab| - 1;
      while i >= 0 && tag != nameTab[i]
        invariant -1 <= i < |nameTab|
        invariant forall j :: i < j < |nameTab| ==> nameTab[j] != tag
      {
        i := i - 1;
      }
      CloseTargetMeans(cfg, nameTab, tag);
      CloseTargetInside(cfg, nameTab, tag);
      if i < 0 {
        return;
      }
      AutoCloseOnClose(tag);
      ghost var target := CloseTarget(cfg, old(nameTab), tag);
      if target.Some? { PopOneMore(old(Abs()), target.value); }
      var oldname := name;
      if oldname.Some? && oldname.value == tag {
        if target.None? { TopIsTarget(cfg, nameTab, tag); }
        Close();
        closed := true;
      }
    }

    /** The content loop over everything the document holds. */
    method ParseContent(events: seq<Event>)
      requires Valid()
      modifies this
      ensures Valid() && Abs() == Run(cfg, old(Abs()), events)
    {
      var i := 0;
      assert events[0..] == events;
      while i < |events| && !eof
        invariant 0 <= i <= |events| && Valid()
        invariant Run(cfg, Abs(), events[i..]) == Run(cfg, old(Abs()), events)
      {
        assert events[i..][1..] == events[i + 1..];
        match events[i] {
          case StartTag(tag, end) =>
            AutoCloseFor(tag);
            ParseElementInternal(tag, end);
          case NamelessTag =>
          case EndTag(tag) =>
            var closed := ParseEndTag(tag);
          case Characters =>
            var inserted := CheckParagraphFor();
          case EndOfInput =>
            AutoCloseOnEnd();
        }
        i := i + 1;
      }
    }
  }

  lemma {:induction false} PopOneMore(s: State, n: nat)
    requires n < |s.names|
    ensures PopTo(s, n) == Pop(PopTo(s, n + 1))
    decreases |s.names| - n
  {
    if n + 1 < |s.names| { PopOneMore(Pop(s), n); }
  }

  lemma TopIsTarget(cfg: Config, names: seq<string>, tag: string)
    requires names != [] && names[|names| - 1] == tag
    ensures CloseTarget(cfg, names, tag).Some?
  {
  }
}
