/** SAX2.c 2549-2640: character data gathered in place, with room kept to spare. */
module Sax2 {
  import opened Strings
  import opened TreeBuilder

  /** Where the bytes of a text node are: in the node itself, in the dictionary, or on the heap. */
  datatype Storage = InNode | InDict | OnHeap

  ghost predicate NoNul(s: string) { '\0' !in s }

  /** `a` holds the zero-terminated string `s`. */
  ghost predicate Holds(a: array<char>, s: string)
    reads a
  {
    |s| < a.Length && a[..|s|] == s && a[|s|] == '\0'
  }

  method StrLen(a: array<char>, ghost s: string) returns (n: nat)
    requires Holds(a, s) && NoNul(s)
    ensures n == |s|
  {
    forall k | 0 <= k < |s| ensures a[k] != '\0' {
      assert a[k] == a[..|s|][k] && s[k] in s;
    }
    n := 0;
    while a[n] != '\0'
      invariant n <= |s|
      decreases |s| - n
    {
      n := n + 1;
    }
  }

  /** A new string of just the right size: the old one with `t` behind it (xmlStrncat, xmlStrdup). */
  method StrCat(a: array<char>, t: string, ghost s: string) returns (b: array<char>)
    requires Holds(a, s) && NoNul(s)
    ensures fresh(b) && b.Length == |s| + |t| + 1 && Holds(b, s + t)
  {
    var n := StrLen(a, s);
    b := new char[n + |t| + 1];
    forall k | 0 <= k < n { b[k] := a[k]; }
    forall k | n <= k < n + |t| { b[k] := t[k - n]; }
    b[n + |t|] := '\0';
    assert b[..n] == a[..n];
    assert b[n..n + |t|] == t;
    assert b[..n + |t|] == b[..n] + b[n..n + |t|];
  }

  method StrNew(t: string) returns (b: array<char>)
    ensures fresh(b) && b.Length == |t| + 1 && Holds(b, t)
  {
    b := new char[|t| + 1];
    forall k | 0 <= k < |t| { b[k] := t[k]; }
    b[|t|] := '\0';
  }

  /** More text behind the last text of the current node. */
  lemma TextExtended(frames: seq<Frame>, text: string, ch: string, grafted: bool, after: bool)
    requires frames != []
    ensures var base := State(frames, false);
            var children := Top(base).children;
            var st := WithTop(base, children + [Text(text)], grafted);
            && EndsInText(Top(st).children) && Top(st).children[|Top(st).children| - 1] == Text(text)
            && st.grafted == grafted && |st.frames| == |frames|
            && WithTop(st, AddText(Top(st).children, ch), after) == WithTop(base, children + [Text(text + ch)], after)
  {
    var base := State(frames, false);
    var children := Top(base).children;
    var st := WithTop(base, children + [Text(text)], grafted);
    assert Top(st).children == children + [Text(text)];
    assert (children + [Text(text)])[..|children|] == children;
    assert st.frames[..|st.frames| - 1] == frames[..|frames| - 1];
  }

  class ParserCtxt {
    const huge: bool
    var frames: seq<Frame>     // the open nodes, without the text being gathered
    var live: bool             // the last child of the current node is a text, held by the fields below
    var content: array<char>
    var storage: Storage
    var nodelen: int
    var nodemem: int
    ghost var text: string     // what content holds
    ghost var moved: nat       // bytes moved by reallocations since the accounting began

    /** The accounting is exact, and the room kept and the bytes moved so far stay within a constant
        factor of the text. */
    ghost predicate Accounted()
      reads `nodelen, `nodemem, `content, `text, `moved, `storage
    {
      && nodelen == |text| < nodemem <= 4 * nodelen + 1 && nodemem <= content.Length
      && moved <= nodemem
      && (storage != OnHeap ==> moved == 0 && nodemem == nodelen + 1)
    }

    ghost predicate Valid()
      reads `frames, `live, `nodelen, `nodemem, `content, `text, `moved, `storage, content
    {
      && frames != [] && !EndsInText(frames[|frames| - 1].children)
      && (live ==>
            && |frames| > 1 && NoNul(text) && Holds(content, text)
            && if nodemem == 0 then storage == OnHeap else Accounted())
    }

    /** The tree so far. */
    ghost function Tree(): (st: State)
      reads `frames, `live, `nodemem, `text
      requires frames != []
      ensures st.frames != []
    {
      var st := State(frames, false);
      if live then WithTop(st, Top(st).children + [Text(text)], nodemem == 0) else st
    }

    constructor (huge: bool)
      ensures Valid() && Tree() == START && fresh(content) && this.huge == huge
    {
      this.huge := huge;
      frames, live, storage, nodelen, nodemem, text, moved := [Frame("", [])], false, OnHeap, 0, 0, "", 0;
      content := new char[1];
    }

    /** xmlSAX2TextNode for a new last child; `where` is the choice it makes for short and blank texts. */
    method NewText(ch: string, where: Storage)
      requires Valid() && !live && |frames| > 1 && NoNul(ch)
      modifies `live, `content, `storage, `nodelen, `nodemem, `text, `moved
      ensures Valid() && fresh(content) && live && nodemem == |ch| + 1
      ensures Tree() == WithTop(old(Tree()), AddText(Top(old(Tree())).children, ch), false)
    {
      content := StrNew(ch);
      live, storage, nodelen, nodemem, text, moved := true, where, |ch|, |ch| + 1, ch, 0;
    }

    /** What is not on the heap is copied there before it is written to. */
    method Own()
      requires Holds(content, text) && NoNul(text) && Accounted()
      modifies `content, `storage, `moved
      ensures content == old(content) || fresh(content)
      ensures Holds(content, text) && Accounted() && storage == OnHeap
    {
      if storage == InNode || (nodemem == nodelen + 1 && storage == InDict) {
        moved := moved + nodelen + 1;
        content := StrCat(content, "", text);
        assert text + "" == text;
        storage := OnHeap;
      }
    }

    /** Room for `len` more bytes: twice what is needed, if there is not enough. */
    method Enlarge(len: nat)
      requires Holds(content, text) && Accounted() && storage == OnHeap && 2 * (nodemem + len) <= INT_MAX
      modifies `content, `nodemem, `moved
      ensures content == old(content) || fresh(content)
      ensures Holds(content, text) && nodelen + len < nodemem <= content.Length
      ensures nodemem <= 4 * (nodelen + len) + 1 && moved <= nodemem
      ensures nodemem == old(nodemem) || nodemem >= 2 * old(nodemem)
    {
      if nodelen + len >= nodemem {
        var size := (nodemem + len) * 2;
        var b := new char[size];
        forall k | 0 <= k < nodemem { b[k] := content[k]; }
        assert b[..|text|] == content[..|text|];
        moved := moved + nodemem;
        nodemem := size;
        content := b;
      }
    }

    /** The bytes put behind the text. */
    method Write(ch: string)
      requires Holds(content, text) && nodelen == |text| && nodelen + |ch| < content.Length
      modifies `nodelen, `text, content
      ensures nodelen == |text| && text == old(text) + ch && Holds(content, text)
    {
      forall k | nodelen <= k < nodelen + |ch| { content[k] := ch[k - nodelen]; }
      assert content[..nodelen] == old(content[..nodelen]);
      assert content[nodelen..nodelen + |ch|] == ch;
      nodelen := nodelen + |ch|;
      content[nodelen] := '\0';
      text := text + ch;
      assert content[..nodelen] == content[..old(nodelen)] + content[old(nodelen)..nodelen];
    }

    /** The text grows in place, into a larger allocation if there is no room for it. */
    method Gather(ch: string)
      requires Valid() && live && nodemem != 0 && storage == OnHeap
      requires NoNul(ch) && 2 * (nodemem + |ch|) <= INT_MAX
      modifies `content, `nodelen, `nodemem, `text, `moved, content
      ensures Valid() && (content == old(content) || fresh(content)) && nodemem != 0
      ensures text == old(text) + ch
    {
      Enlarge(|ch|);
      Write(ch);
    }

    /** A text that would grow past the limit is left as it is. */
    method GatherUpToLimit(ch: string)
      requires Valid() && live && nodemem != 0 && NoNul(ch)
      requires huge ==> 2 * (nodemem + |ch|) <= INT_MAX
      modifies `content, `storage, `nodelen, `nodemem, `text, `moved, content
      ensures Valid() && (content == old(content) || fresh(content)) && nodemem != 0
      ensures text == if |old(text)| + |ch| > XML_MAX_TEXT_LENGTH && !huge then old(text) else old(text) + ch
    {
      Own();
      if nodelen + |ch| > XML_MAX_TEXT_LENGTH && !huge {
        return;
      }
      Gather(ch);
    }

    /** xmlTextConcat, used when the accounting was given up: it starts again from the exact length. */
    method Concat(ch: string)
      requires Valid() && live && nodemem == 0 && NoNul(ch)
      modifies `content, `nodelen, `nodemem, `text, `moved
      ensures Valid() && fresh(content) && nodemem != 0
      ensures text == old(text) + ch
    {
      moved := |text|;
      content := StrCat(content, ch, text);
      text := text + ch;
      nodelen := StrLen(content, text);
      nodemem := nodelen + 1;
    }

    /** xmlSAX2Characters */
    method Characters(ch: string, where: Storage)
      requires Valid() && NoNul(ch) && |ch| < INT_MAX
      requires live && nodemem == 0 ==> |text| + |ch| < INT_MAX
      requires live && nodemem != 0 && huge ==> 2 * (nodemem + |ch|) <= INT_MAX
      modifies `live, `content, `storage, `nodelen, `nodemem, `text, `moved, content
      ensures Valid() && (content == old(content) || fresh(content))
      ensures Tree() == Step(huge, old(Tree()), Chars(ch))
    {
      if |frames| == 1 {
        return;
      }
      if !live {
        NewText(ch, where);
        return;
      }
      TextExtended(frames, text, ch, nodemem == 0, false);
      if nodemem != 0 {
        GatherUpToLimit(ch);
      } else {
        Concat(ch);
      }
    }

    /** The text being gathered becomes a child like the others. */
    method Settle()
      requires Valid()
      modifies `frames, `live
      ensures frames != [] && !live && frames == old(Tree()).frames
    {
      if live {
        var top := frames[|frames| - 1];
        var n := StrLen(content, text);
        frames := frames[..|frames| - 1] + [top.(children := top.children + [Text(content[..n])])];
        live := false;
      }
    }

    /** xmlAddChild with the text of a substituted entity: it is merged into a text before it, behind
        the back of the accounting, which is given up. */
    method Graft(s: string)
      requires Valid() && NoNul(s)
      modifies `live, `content, `storage, `nodelen, `nodemem, `text, `moved
      ensures Valid()
      ensures content == old(content) || fresh(content)
      ensures Tree() == Step(huge, old(Tree()), Event.Graft(s))
    {
      if |frames| == 1 {
        return;
      }
      if live {
        GraftBehind(s);
      } else {
        GraftNew(s);
      }
    }

    method GraftBehind(s: string)
      requires Valid() && NoNul(s) && live
      modifies `content, `storage, `nodelen, `nodemem, `text, `moved
      ensures Valid() && fresh(content)
      ensures Tree() == WithTop(old(Tree()), AddText(Top(old(Tree())).children, s), true)
    {
      TextExtended(frames, text, s, nodemem == 0, true);
      content := StrCat(content, s, text);
      text := text + s;
      storage, nodelen, nodemem, moved := OnHeap, 0, 0, 0;
    }

    method GraftNew(s: string)
      requires Valid() && NoNul(s) && !live && |frames| > 1
      modifies `live, `content, `storage, `nodelen, `nodemem, `text, `moved
      ensures Valid() && fresh(content)
      ensures Tree() == WithTop(old(Tree()), AddText(Top(old(Tree())).children, s), true)
    {
      content := StrNew(s);
      text, live := s, true;
      storage, nodelen, nodemem, moved := OnHeap, 0, 0, 0;
    }

    /** xmlSAX2Comment, xmlSAX2ProcessingInstruction */
    method AddNode(id: int)
      requires Valid()
      modifies `frames, `live
      ensures Valid() && Tree() == Step(huge, old(Tree()), Node(id))
    {
      Settle();
      var top := frames[|frames| - 1];
      frames := frames[..|frames| - 1] + [top.(children := top.children + [Other(id)])];
    }

    /** xmlSAX2StartElement */
    method StartElement(name: string)
      requires Valid()
      modifies `frames, `live, `nodemem
      ensures Valid() && Tree() == Step(huge, old(Tree()), Start(name))
    {
      Settle();
      nodemem := -1;
      frames := frames + [Frame(name, [])];
    }

    /** xmlSAX2EndElement */
    method EndElement()
      requires Valid()
      modifies `frames, `live, `nodemem
      ensures Valid() && Tree() == Step(huge, old(Tree()), End)
    {
      if |frames| == 1 {
        return;
      }
      Settle();
      nodemem := -1;
      var ended, outer := frames[|frames| - 1], frames[|frames| - 2];
      frames := frames[..|frames| - 2] + [outer.(children := outer.children + [Element(ended.name, ended.children)])];
    }
  }
}
