/** HTMLparser.c: the tables of the HTML parser. */
module HtmlTables {
  import opened Strings
  import opened HtmlStack

  /** Rows of, and after, the table rows. */
  function InlineClose(tag: string): (r: seq<string>)
    ensures "html" !in r && "body" !in r
  {
    if tag == "tr" then ["th", "td", "tr", "caption", "col", "colgroup", "p"]
    else if tag == "thead" then ["caption", "col", "colgroup"]
    else if tag == "tfoot" then ["th", "td", "tr", "caption", "col", "colgroup", "thead", "tbody", "p"]
    else if tag == "tbody" then ["th", "td", "tr", "caption", "col", "colgroup", "thead", "tfoot", "tbody", "p"]
    else if tag in ["optgroup", "option"] then ["option"]
    else if tag == "fieldset" then
      ["legend", "p", "head", "h1", "h2", "h3", "h4", "h5", "h6", "pre", "listing", "xmp", "a"]
    else if tag in ["tt", "i", "b", "u", "s", "strike", "big", "small", "em", "strong", "dfn", "code", "samp", "kbd",
      "var", "cite", "abbr", "acronym", "img", "font", "br", "map", "q", "sub", "sup", "span", "bdo", "iframe"] then
      ["head"]
    else []
  }

  /** Rows from "center" on. */
  function TableClose(tag: string): (r: seq<string>)
    ensures "html" !in r && "body" !in r
  {
    if tag == "center" then ["font", "b", "i", "p", "head"]
    else if tag == "a" then ["a", "head"]
    else if tag == "caption" then ["p"]
    else if tag == "colgroup" then ["caption", "colgroup", "col", "p"]
    else if tag == "col" then ["caption", "col", "p"]
    else if tag == "table" then ["p", "head", "h1", "h2", "h3", "h4", "h5", "h6", "pre", "listing", "xmp", "a"]
    else if tag in ["th", "td"] then ["th", "td", "p", "span", "font", "a", "b", "i", "u"]
    else InlineClose(tag)
  }

  /** Rows from "dl" on. */
  function ListClose(tag: string): (r: seq<string>)
    ensures "html" !in r && "body" !in r
  {
    if tag == "dl" then ["p", "dt", "menu", "dir", "address", "pre", "listing", "xmp", "head"]
    else if tag == "dt" then ["p", "menu", "dir", "address", "pre", "listing", "xmp", "head", "dd"]
    else if tag == "dd" then ["p", "menu", "dir", "address", "pre", "listing", "xmp", "head", "dt"]
    else if tag == "ul" then ["p", "head", "ol", "menu", "dir", "address", "pre", "listing", "xmp"]
    else if tag in ["ol", "menu"] then ["p", "head", "ul"]
    else if tag == "p" then
      ["p", "head", "h1", "h2", "h3", "h4", "h5", "h6", "tt", "i", "b", "u", "s", "strike", "big", "small"]
    else if tag == "div" then ["p", "head"]
    else if tag == "noscript" then ["p"]
    else TableClose(tag)
  }

  /** The open elements a start tag closes; the first row for the tag decides. */
  function StartClose(tag: string): (r: seq<string>)
    ensures "html" !in r && "body" !in r
  {
    if tag == "form" then
      ["form", "p", "hr", "h1", "h2", "h3", "h4", "h5", "h6", "dl", "ul", "ol", "menu", "dir", "address", "pre",
        "listing", "xmp", "head"]
    else if tag in ["head", "title"] then ["p"]
    else if tag in ["body", "frameset"] then ["head", "style", "link", "title", "p"]
    else if tag == "li" then
      ["p", "h1", "h2", "h3", "h4", "h5", "h6", "dl", "address", "pre", "listing", "xmp", "head", "li"]
    else if tag in ["hr", "h1", "h2", "h3", "h4", "h5", "h6", "dir"] then ["p", "head"]
    else if tag in ["address", "pre"] then ["p", "head", "ul"]
    else if tag in ["listing", "xmp", "blockquote"] then ["p", "head"]
    else ListClose(tag)
  }

  predicate Closes(newtag: string, oldtag: string) { oldtag in StartClose(newtag) }

  /** The priority of an end tag; it may only close elements of lower or equal priority. */
  function EndPriority(tag: string): int
  {
    if tag == "div" then 150
    else if tag == "td" || tag == "th" then 160
    else if tag == "tr" then 170
    else if tag == "thead" || tag == "tbody" || tag == "tfoot" then 180
    else if tag == "table" then 190
    else if tag == "head" || tag == "body" then 200
    else if tag == "html" then 220
    else 100
  }

  /** The elements declared empty. */
  predicate EmptyElement(tag: string)
  {
    tag in ["area", "base", "basefont", "br", "col", "frame", "hr", "img", "input", "isindex", "link", "meta", "param"]
  }

  /** The parser's own tables with its default options. */
  const HTML := Config(Closes, EndPriority, EmptyElement, false, true, false)

  /** No start tag ever closes the html or the body element. */
  lemma StructureStaysOpen(tag: string)
    ensures !Closes(tag, "html") && !Closes(tag, "body")
  {
  }

  /** Hence auto-closing never removes them. */
  lemma AutoCloseKeepsStructure(s: State, tag: string)
    requires Inv(s)
    ensures var t := AutoClose(HTML, s, tag);
            && t.names <= s.names
            && forall i :: |t.names| <= i < |s.names| ==> s.names[i] != "html" && s.names[i] != "body"
  {
    var n := AutoCloseIsPopTo(HTML, s, tag);
    InvPopTo(s, n);
    forall i | n <= i < |s.names| ensures s.names[i] != "html" && s.names[i] != "body" {
      StructureStaysOpen(tag);
      assert HTML.closes(tag, s.names[i]);
    }
  }

  /** "div" is such an ordinary element, so documents too deep for the tree builder do exist. */
  lemma DivIsOrdinary()
    ensures Ordinary(HTML, "div") && !HTML.huge
  {
    StructureStaysOpen("div");
  }
}
