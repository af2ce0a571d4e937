# Verified models of libxml2's stateful algorithms

This project models, in Dafny, the parts of the bundled libxml2 whose correctness rests on state kept
over a whole run, and proves what they are for.  C strings are modelled as Dafny strings with one
character per byte; a null prefix is the empty prefix; allocation always succeeds.

`dafny verify dfyconfig.toml` checks everything.

## What is modelled

* **XML canonicalisation** (`Strings`, `XmlTree`, `Normalize`, `NsStack`, `Canonical`,
  `CanonicalProps`, `UriSyntax`, `QuotedUri`, `CanonicalText`, `CanonicalDecode`, `CanonicalBytes`,
  `ReadBack`, `CanonicalAgain`, `C14N`).  `Canonical` says what canonical form is, without a stack:
  an element's declarations are a set of differences between bindings, and listings are the
  ascending order of a set.  `C14N` is the walk of the C code, with the namespace stack, its three
  indices, the searches and the output buffer updated in place, proved to write exactly that form.
  `CanonicalProps` proves that the form preserves meaning, is minimal, is in byte order, and does
  not depend on the order of the source; `UriSyntax` is the URI parser as far as it decides which
  namespace URIs are refused. `CanonicalText`, `CanonicalDecode` and `CanonicalBytes` read the bytes
  back: what has the same canonical bytes as a document means the same, under a condition on the
  URIs of that document. `ReadBack` is how a parser reads attribute values and text;
  `CanonicalAgain` shows when the bytes, read as a document, are canonicalised to themselves.
* **Catalog resolution** (`PublicId`, `CatalogSpec`, `CatalogRun`, `CatalogProps`, `CatalogLeaks`,
  `CatalogTwice`, `CatalogEntries`, `Catalog`).  The two mutually recursive resolvers run over any
  finite store of catalog files, with cycles, and end.  `CatalogRun` is the run as a function of
  counters and marks, which the methods of `Catalog` are proved to compute; on stores without cycles
  it refines the declarative lookup of `CatalogSpec` (`CatalogProps`).  `CatalogLeaks` says when
  counters are left raised, `CatalogTwice` what becomes of a question asked twice, `CatalogEntries`
  which entries have a say, on any store. `PublicId` has normalisation and the unwrapping of URNs,
  with the measure that makes repeated unwrapping end.
* **The HTML element stack** (`HtmlStack`, `HtmlElements`, `HtmlTables`, `HtmlParser`).  `HtmlStack`
  is the machine of pushes, pops, implied and discarded tags as a function from state to state, for
  any tables and options; `HtmlParser` is the context that the C functions update in place, each
  method proved equal to its step; `HtmlElements` says which elements are open after which tags;
  `HtmlTables` has the tables of the source.
* **HTML entities** (`HtmlEncode`, `HtmlBytes`, `HtmlReader`, `HtmlReferences`, `Entities`,
  `EntityTable`).  The resumable printer, the reference parser that undoes it, and the 253 entries
  of the table with the two scans over it.
* **The comment search of the push parser** (`HtmlLookup`), a cache that must agree with a full
  rescan.
* **The growable buffer** (`Buffer`), over an array with head room, several allocation schemes and a
  duplicated pair of size fields.  What fresh memory holds is a parameter.
* **The tree builder and its gathering of text** (`TreeBuilder`, `TreeEvents`, `Sax2`).  The tree of
  a run tells the events it was built from.

## Where the code does not do what it says

The model follows the code.

* Canonical bytes do not always determine the document.  Namespace URIs are written by
  `xmlBufWriteQuotedString` (buf.c 1070-1112), which leaves `&` raw but replaces a double quote if the
  URI also holds an apostrophe.  Most such URIs are refused as relative or malformed (c14n.c 1353-1390),
  but the URI parser takes any character between the brackets of a host: `http://["']` and
  `http://[&quot;']` are both accepted and written alike (`QuotedUri.SharedPair`).  This happens exactly
  for accepted URIs with an apostrophe and, between brackets, a double quote or `&quot;`
  (`QuotedUri.SharedExactly`), and then to whole documents (`CanonicalBytes.CollidesExactly`).  Comments
  and processing instructions are normalised with `&` left raw as well, so a carriage return and `&#xD;`
  collide there, and nothing else does (`Normalize.SharedExactly`); an XML parser leaves carriage returns
  in neither.
* Canonicalising again can change the bytes.  Since `&` is left raw in namespace URIs, where the URI
  parser allows it, `urn:x&amp;y` is written so that a parser reads `urn:x&y`, which in turn is written
  so that no parser accepts it (`CanonicalAgain.AmpersandLost`).  A URI is read back as it was exactly if
  it has no `&`, no `<` and no character below the blank (`ReadBack.ReadsBackExactly`), and documents of
  such URIs do give the same bytes again (`CanonicalAgain.Idempotent`).
* The attempt at an IPv4 address in the URI parser steps over the first dot only, so that it never
  succeeds (`UriSyntax.NeverIpv4`).
* The name stack and the node stack of the HTML parser part company when `nodePush` refuses a node
  because more than 256 are open, and not before (`HtmlStack.NodesFollowNames`,
  `HtmlStack.DeepDocument`).
* A catalog lookup can answer differently when repeated: a delegate that cannot be loaded cuts the
  first lookup off and is passed over from then on (`CatalogResolver.AskTwice`).  On stores without
  cycles only such a cut can change, and `CatalogTwice.AskedAgain` says when it does.
* The way out of the loop over next catalogs that finds its own counter beyond the limit does not drop
  it (catalog.c 1826-1834).  A catalog that continues with itself is left with its counter at 51 and is
  refused for ever after (`CatalogResolver.AskLoop`, `CatalogLeaks.SelfLoop`).  A lookup that finds
  nothing restores all counters exactly if no endless chain of next catalogs starts at its file
  (`CatalogLeaks.RestoredExactly`).
* `xmlCatalogNormalizePublic` returns an empty string, not NULL, for an empty identifier.
* `xmlBufSetAllocationScheme` returns -1 for the switch to IO that it makes; `xmlBufAddLen` returns -1
  for bytes that it takes when they fill the buffer to the last byte, and a later grow or resize then
  leaves it to chance whether there is a terminating zero (`Buffer.FillThenGrow`);
  `Buffer.EndedExactly` says exactly when the zero is there.

## Model

| member | source | states |
|---|---|---|
| `Strings.CompareSound` | libxml2-static/xmlstring.c:132-143 | the string comparison is zero exactly on equal strings, and swapping its arguments swaps its sign |
| `Strings.CompareTransitive` | libxml2-static/xmlstring.c:132-143 | the string comparison is transitive, so it orders all strings |
| `Strings.CompareIsByteOrder` | libxml2-static/xmlstring.c:132-143 | the comparison is negative exactly if the first string is a proper prefix of the second, or has the smaller byte at the first place where they differ |
| `SortedLists.InsertLists` | libxml2-static/list.c:273-294 | inserting a new element into an ascending listing of a set, in front of the first element not below it, gives the ascending listing of the larger set |
| `SortedLists.ListsUnique` | libxml2-static/list.c:273-294 | a set has only one ascending listing, whatever order its members were inserted in |
| `SortedLists.SortedExists` | libxml2-static/list.c:273-294 | every finite set that the comparator separates has an ascending listing |
| `XmlTree.SearchIsNearest` | libxml2-static/tree.c:5979-6052 | on a namespace-well-formed path the search, including its shortcut through an ancestor's own namespace pointer, finds the declaration of the nearest ancestor-or-self |
| `XmlTree.UriIsNearest` | libxml2-static/tree.c:5979-6052 | the URI in force for a prefix, defined by reading declarations from the root down, is the URI of the nearest declaration found from the element up |
| `Normalize.NormalizeString` | libxml2-static/c14n.c:2146-2234 | the buffer loop with its check for ten free places and its doubling computes the character-by-character escaping, and every write, the final zero included, lands inside the buffer |
| `Normalize.UnescapedNormalized` | libxml2-static/c14n.c:2124-2132 | in text and attribute mode an explicit reader of the references gives the original text back |
| `Normalize.NormalizeInjective` | libxml2-static/c14n.c:2124-2132 | in text and attribute mode two texts have the same normal form exactly when they are equal |
| `Normalize.SharedExactly` | libxml2-static/c14n.c:2146-2234 | in comment and processing-instruction mode, where '&' stays raw, a text shares its normal form with another one exactly if it holds a carriage return or the reference for one |
| `Normalize.NoRawSpecials` | libxml2-static/c14n.c:2146-2234 | no character that the mode escapes occurs in the output, except as the '&' that opens one of its own references |
| `Normalize.NoneLeft` | libxml2-static/c14n.c:2146-2234 | no '<', no '>' and no carriage return is left raw in a text, no '<', no '"', no tab, line feed or carriage return in an attribute value, and no carriage return anywhere |
| `Normalize.NothingElse` | libxml2-static/c14n.c:2146-2234 | a string without the characters that its mode escapes, named one by one, goes out as it is |
| `NsStack.VisibleNsStack.Add` | libxml2-static/c14n.c:313-357 | the live entries grow by exactly the new one, through allocation and doubling of the table |
| `NsStack.VisibleNsStack.Save` | libxml2-static/c14n.c:359-369 | all three indices are saved |
| `NsStack.VisibleNsStack.Restore` | libxml2-static/c14n.c:371-380 | the three indices come back and the live entries are those below the saved end |
| `NsStack.VisibleNsStack.Shift` | libxml2-static/c14n.c:382-390 | the window moves up: previous start becomes previous end, previous end becomes the current end; the entries stay |
| `NsStack.VisibleNsStack.Find` | libxml2-static/c14n.c:412-444 | the answer is what the topmost entry for the prefix says within the window from nsPrevStart on (the whole stack for the empty default); with no entry only the empty default counts as rendered |
| `NsStack.VisibleNsStack.FindExclusive` | libxml2-static/c14n.c:446-481 | the same answer over the whole stack |
| `NsStack.RenderedIsTopUri` | libxml2-static/c14n.c:412-481 | for a legal declaration the answer is 'the topmost entry for the prefix gives this URI' |
| `C14N.AttrsCompareOrder` | libxml2-static/c14n.c:881-918 | on attributes the parser accepts, the comparator with its pointer tests is the order by namespace URI, then local name |
| `CanonicalProps.CAttrOrder` | libxml2-static/c14n.c:881-918 | the attribute order is asymmetric and transitive on expanded names |
| `CanonicalProps.DeclOrder` | libxml2-static/c14n.c:515-526 | the declaration order is asymmetric and transitive on prefixes |
| `C14N.AxisComplete` | libxml2-static/c14n.c:601-673 | once every declaration on the path has been visited, the collected list is the set of bindings that changed from the output parent, ascending by prefix, and the pushed block stands for the bindings in force at the element |
| `C14N.AxisFound` | libxml2-static/c14n.c:624-650 | although the search looks back only to nsPrevStart, it answers 'pushed for this element already, or bound to the same URI in the output parent' |
| `C14N.UsesComplete` | libxml2-static/c14n.c:706-850 | in exclusive mode, once the prefixes of the element and its attributes have been visited, the list is the set of used bindings that the output parent lacks, and the whole stack stands for the bindings of the output |
| `C14N.C14NCtx.ProcessNamespacesAxis` | libxml2-static/c14n.c:601-673 | inclusive mode: the text written is exactly the prescribed declarations, and afterwards the entries pushed answer for the bindings in force at this element |
| `C14N.C14NCtx.ProcessNamespacesAxisExclusive` | libxml2-static/c14n.c:706-850 | exclusive mode without a prefix list: the text written is exactly the prescribed declarations, and the topmost entry for every prefix is the binding in force in the output |
| `C14N.C14NCtx.ProcessAttrsAxis` | libxml2-static/c14n.c:1125-1342 | the attributes are written each once, in the order of URI and local name, whatever their order in the source |
| `C14N.C14NCtx.CheckForRelativeNamespaces` | libxml2-static/c14n.c:1353-1390 | an element passes exactly if each namespace URI it declares is empty or is one that the URI parser takes for absolute, with a server unless the scheme is urn or dav |
| `C14N.C14NCtx.ProcessElementNode` | libxml2-static/c14n.c:1415-1512 | the text written is the canonical element; the visit fails exactly when the element or one below it declares a namespace URI that is refused, or an entity reference lies below; a successful visit leaves the three indices and the live entries as it found them |
| `C14N.C14NCtx.ProcessNode` | libxml2-static/c14n.c:1523-1703 | every kind of node is written in canonical form, with line breaks around comments and processing instructions only outside the document element |
| `C14N.C14NCtx.ProcessNodeList` | libxml2-static/c14n.c:1714-1728 | a list of siblings is written as the canonical forms one after the other, stopping at the first failure |
| `C14N.Canonicalise` | libxml2-static/c14n.c:1867-1946 | for every namespace-well-formed, fully visible document the loop-and-stack walk writes the canonical form prescribed without any stack, with every element's declarations in the byte order of prefixes and its attributes in that of URI and local name, and fails exactly on entity references and on namespace URIs that are refused |
| `CanonicalProps.CanonInOrder` | libxml2-static/c14n.c:503-566 | at every element of a canonical tree, of two declarations the one with the prefix that comes first in byte order stands first, and of two attributes the one whose URI, or else local name, does |
| `CanonicalProps.CommentsDropped` | libxml2-static/c14n.c:1613-1660 | canonicalising without comments is canonicalising with comments the document from which they are taken out |
| `CanonicalProps.LinesBetween` | libxml2-static/c14n.c:1566-1660 | each comment and processing instruction beside the document element is on a line of its own, before it and after it |
| `CanonicalProps.InclusiveReadBack` | libxml2-static/c14n.c:601-673 | inclusive mode: reading the written declarations back gives at every element exactly the bindings in force in the source |
| `CanonicalProps.ExclusiveReadBack` | libxml2-static/c14n.c:706-850 | exclusive mode: every prefix that an element or its attributes use is bound in the output as in the source |
| `CanonicalProps.NamesPreserved` | libxml2-static/c14n.c:601-850 | the names of an element and of its attributes resolve in the output to the same URIs as in the source |
| `CanonicalProps.MeaningPreserved` | libxml2-static/c14n.c:1415-1512 | a reader of the canonical tree, consulting only the declarations read so far, gets the source document with all names resolved, and in inclusive mode with the same bindings at every element |
| `CanonicalProps.DeclsMinimal` | libxml2-static/c14n.c:624-666 | no element declares what its output parent already has in force, prefixes ascend strictly, and each occurs at most once |
| `CanonicalProps.DeclsNecessary` | libxml2-static/c14n.c:624-666 | leaving any declaration out would give a prefix the element needs another meaning |
| `CanonicalProps.OrderIndependent` | libxml2-static/c14n.c:1125-1342 | documents that differ only in the order of each element's attributes and declarations have the same canonical form |
| `CanonicalProps.SameText` | libxml2-static/c14n.c:1867-1946 | such documents are canonicalised alike: both fail, or both give the same bytes |
| `UriSyntax.BracketedParsed` | libxml2-static/uri.c:431-493 | a URI put together from a scheme, user information, a host in brackets and a rest that is allowed is parsed into just these, whatever stands between the brackets |
| `UriSyntax.OddInBrackets` | libxml2-static/uri.c:751-881 | in an accepted URI every character other than the usual ones stands between the brackets of its host |
| `UriSyntax.NeverIpv4` | libxml2-static/uri.c:450-470 | the attempt at an IPv4 address steps over the first dot only and so never succeeds; such hosts are read as names |
| `UriSyntax.SchemeDecides` | libxml2-static/c14n.c:1365-1385 | a URI of a scheme and plain characters, without a server, is accepted exactly if its scheme is urn or dav, in letters of either case |
| `UriSyntax.ServerDecides` | libxml2-static/uri.c:751-881 | a URI with a host, a path, a query and a fragment, each of the characters that RFC 3986 lets it hold, is accepted exactly if the host is not empty or the scheme is urn or dav |
| `UriSyntax.PortDecides` | libxml2-static/uri.c:324-345 | with a colon behind the host it is refused unless at least one digit follows |
| `QuotedUri.QuotedExactly` | libxml2-static/buf.c:1069-1112 | of all strings, what is written for one is also written for another exactly if it holds an apostrophe together with a double quote or with the reference for one |
| `QuotedUri.SharedExactly` | libxml2-static/buf.c:1069-1112 | of accepted URIs, what is written for one is also written for another exactly if it has an apostrophe anywhere and, between the brackets of its host, a double quote or the reference for one |
| `QuotedUri.SharedPair` | libxml2-static/buf.c:1069-1112 | two URIs that are both accepted and written alike |
| `CanonicalDecode.PrintInjective` | libxml2-static/c14n.c:1415-1728 | a canonical tree none of whose URIs is written like another accepted one is determined by its bytes among all trees with accepted URIs, names that look like names, adjacent texts in one piece, and comments and processing instructions that hold neither what ends them nor a carriage return |
| `CanonicalBytes.SameBytesSameMeaning` | libxml2-static/c14n.c:1867-1946 | whatever document has the same canonical bytes as a document none of whose URIs is written like another accepted one means the same: the same resolved names, attributes, text and, in inclusive mode, bindings, up to how text is cut into nodes |
| `CanonicalBytes.CollidesExactly` | libxml2-static/buf.c:1069-1112 | the condition on URIs is needed: among all documents that are not refused there is one with the same bytes as a given element in a default namespace and another meaning, exactly if another accepted URI is written like its own |
| `ReadBack.ReadsBackExactly` | libxml2-static/parser.c:3967-4195 | between its quotes a URI is read back as it was exactly if it has no '&', no '<' and no character below the blank |
| `ReadBack.CleanExactly` | libxml2-static/uri.c:856-881 | for an accepted URI that means no '&' at all, and nothing of the rest between the brackets of its host |
| `ReadBack.WrittenAgainExactly` | libxml2-static/buf.c:1069-1112 | what is read back is written as before exactly if some URI that reads back as it was is written in this way |
| `ReadBack.ReadNormalized` | libxml2-static/c14n.c:2146-2234 | attribute values and texts, normalised, are read back by an XML parser as they were |
| `CanonicalAgain.Idempotent` | libxml2-static/c14n.c:1867-1946 | if the URIs of a document read back as they were, its canonical bytes are read as a document, with URIs, values and texts as a parser reads them, that is namespace-well-formed, is not refused, and is canonicalised to the same bytes, in every mode |
| `CanonicalAgain.AgainExactly` | libxml2-static/c14n.c:1867-1946 | an element in a default namespace gives the same bytes again exactly if some accepted URI that reads back as it was is written like its own |
| `CanonicalAgain.AmpersandLost` | libxml2-static/buf.c:1069-1112 | a document that is accepted and whose canonical bytes are read as another accepted one, with other canonical bytes that cannot be read at all |
| `CanonicalAgain.ElementAgain` | libxml2-static/c14n.c:1415-1512 | a canonical element with its URIs as they were uses the same prefixes, needs the same declarations and binds the same as before |
| `PublicId.NormalizePublic` | libxml2-static/catalog.c:1032-1073 | the two loops return nothing exactly for non-empty identifiers that are already normal, and otherwise the words of the identifier joined by single spaces; the copy is never written past its end |
| `PublicId.CheckedIsNormal` | libxml2-static/catalog.c:1040-1052 | the checking loop accepts exactly the non-empty identifiers that normalisation leaves alone |
| `PublicId.SqueezeIsNormal` | libxml2-static/catalog.c:1056-1071 | the rewriting loop is split-on-blanks followed by join-with-space |
| `PublicId.NormalIdempotent` | libxml2-static/catalog.c:1032-1073 | normalising again changes nothing, and no word is lost |
| `PublicId.NormalIsNeat` | libxml2-static/catalog.c:1032-1073 | a normal identifier has no tab, no line end, no two blanks side by side and none at either end, and the characters that are not blank are those of the original, in order |
| `PublicId.UnWrapURN` | libxml2-static/catalog.c:821-875 | unwrapping follows the table of section 6.4 of OASIS XML Catalogs, stops once fewer than four places are left, and never writes outside its 2000-byte buffer |
| `PublicId.UrnExactly` | libxml2-static/catalog.c:821-875 | a name is unwrapped exactly if it begins with urn:publicid: |
| `PublicId.TokenTable` | libxml2-static/catalog.c:821-875 | the table of what is unwrapped, entry by entry: plus, colon, semicolon and the eight codes; anything else stands for itself |
| `PublicId.UnwrapInvertsTranscription` | libxml2-static/catalog.c:821-875 | unwrapping gives back a transcribed identifier exactly when its last transcription group starts within the first 1996 characters, hence always up to 1997 characters |
| `PublicId.UnwrapPercents` | libxml2-static/catalog.c:821-875 | unwrapping never adds a '%', and uses one up for every colon that then stands alone |
| `PublicId.UnwrapDrops` | libxml2-static/catalog.c:2014-2057 | if the result, as it is or after normalisation, is again a URN to unwrap, it has strictly fewer '%' |
| `PublicId.CostOfUnwrapped` | libxml2-static/catalog.c:2014-2057 | the combined measure over both identifiers drops with every unwrapping, which is why repeated unwrapping ends |
| `PublicId.IdsSettled` | libxml2-static/catalog.c:2003-2057 | the identifiers a lookup ends up with contain no URN, the public one is normal, and starting again from them changes nothing |
| `PublicId.IdsPlain` | libxml2-static/catalog.c:2003-2057 | identifiers that are no URNs are asked for as they are, the public one in normal form |
| `PublicId.IdsPublicUrn` | libxml2-static/catalog.c:2003-2030 | a public identifier that is a URN is replaced by what it wraps |
| `PublicId.IdsSystemUrn` | libxml2-static/catalog.c:2031-2057 | a system identifier that is a URN becomes the public identifier if there is none, is dropped if it wraps the public one, and is otherwise replaced by what it wraps |
| `CatalogRun.FreeShrinks` | libxml2-static/catalog.c:1639-1646 | a deeper counter leaves strictly fewer nested resolves: the ground for termination on every store, cyclic or not |
| `CatalogLeaks.FreeIsRemaining` | libxml2-static/catalog.c:1639-1646 | what is left is the sum of 51 minus the counter over all files |
| `CatalogLeaks.EnteringTakesOne` | libxml2-static/catalog.c:1639-1646 | every nested resolve takes exactly one off that sum, so it bounds how many can be nested |
| `CatalogResolver.Resolver.Resolve` | libxml2-static/catalog.c:1626-1843 | terminates on every store, cyclic or not, with the answer, the counters and the marks of the run function that the results below are about; for every ranking that shows the store free of cycles, with counters below the limit, the answer is the declarative one and the counters are restored |
| `CatalogEntries.IdleEntry` | libxml2-static/catalog.c:1648-1808 | on any store, an entry that is for another identifier, or a prefix rule or delegate whose name is no prefix of the identifier asked for, or a public delegate that is not preferred, does not matter: with an entry of no meaning in its place answer, counters and marks stay |
| `CatalogEntries.SystemDelegateDecides` | libxml2-static/catalog.c:1694-1733 | on any store, with no exact entry and no rewrite rule, an unmarked system delegate whose name is a prefix keeps public entries and next catalogs from being asked, and the lookup is cut off if no such delegate loads |
| `CatalogEntries.PublicDelegateDecides` | libxml2-static/catalog.c:1771-1808 | the same for preferred public delegates |
| `CatalogEntries.ExactSystemDecides` | libxml2-static/catalog.c:1648-1693 | on any store the first entry for exactly the system identifier answers, wherever it stands and whatever else is asked for |
| `CatalogEntries.RewriteDecides` | libxml2-static/catalog.c:1660-1693 | otherwise the longest rewrite prefix, the first of those, is replaced by its target |
| `CatalogEntries.ExactPublicDecides` | libxml2-static/catalog.c:1736-1770 | the first entry for exactly the public identifier answers, when no system identifier is asked for |
| `CatalogEntries.SystemDelegateAsked` | libxml2-static/catalog.c:1694-1733 | the first system delegate is asked for the system identifier only, and what it finds is the answer |
| `CatalogEntries.PublicDelegateAsked` | libxml2-static/catalog.c:1771-1808 | the first public delegate is asked for the public identifier only, and what it finds is the answer |
| `CatalogEntries.NextAsked` | libxml2-static/catalog.c:1809-1843 | the first next catalog is asked for both identifiers, and what it finds is the answer |
| `CatalogResolver.Resolver.Ask` | libxml2-static/catalog.c:2002-2079 | the same for a list of catalogs and for identifiers that still have to be unwrapped and normalised |
| `CatalogResolver.Resolver.ScanSystem` | libxml2-static/catalog.c:1648-1693 | the pass finds the first exact system entry, or else the first longest non-empty rewrite prefix, and counts delegates and next catalogs as applicable |
| `CatalogResolver.Resolver.ScanPublic` | libxml2-static/catalog.c:1736-1770 | the pass finds the first exact public entry, or else counts delegates and next catalogs as applicable |
| `CatalogResolver.Resolver.SystemPhase` | libxml2-static/catalog.c:1648-1733 | exact match beats rewrite beats delegation, wherever in the file they stand; delegation that finds nothing cuts the lookup off; on every store |
| `CatalogResolver.Resolver.PublicPhase` | libxml2-static/catalog.c:1735-1808 | exact match beats delegation, and delegation that finds nothing cuts the lookup off; on every store |
| `CatalogResolver.Resolver.TryDelegates` | libxml2-static/catalog.c:1700-1732 | the loop over the delegates with its array of files already tried, capped at 50, is the recursion over them, counters and marks included |
| `CatalogResolver.Resolver.TryNext` | libxml2-static/catalog.c:1809-1838 | the next catalogs are asked in list order and the first answer ends the lookup; a loaded child that comes back with this file's counter beyond the limit ends it as well, without the counter being dropped |
| `CatalogResolver.Resolver.Fetch` | libxml2-static/catalog.c:1408-1477 | an entry's file loads exactly if the store has it; a failure marks this entry as broken and no other |
| `CatalogResolver.Resolver.ListResolve` | libxml2-static/catalog.c:2002-2079 | URNs are unwrapped first, then the catalogs of the list are asked in order; on every store |
| `CatalogProps.ResolveRefines` | libxml2-static/catalog.c:1626-1843 | without cycles, and with counters below the limit, a run gives the declarative answer, restores the counters, and marks only entries of files in reach |
| `CatalogProps.DelegatesRefine` | libxml2-static/catalog.c:1700-1732 | asking the delegates while skipping files already tried, with the table capped at 50, answers as asking every applicable delegate in list order, although lookups may mark entries as broken meanwhile |
| `CatalogProps.NextRefines` | libxml2-static/catalog.c:1809-1838 | without cycles the way out that forgets the counter is never taken |
| `CatalogRun.RestoredUnlessForgotten` | libxml2-static/catalog.c:1639-1646 | on every store and for every answer each counter ends as many above where it was as its file was left the forgetful way, so all are restored exactly if that way was not taken, which takes a counter beyond the limit |
| `CatalogLeaks.RestoredExactly` | libxml2-static/catalog.c:1809-1838 | a lookup that finds nothing, starting with all counters at 49 or less, restores them exactly if there is no endless chain of loadable next catalogs from its file on |
| `CatalogLeaks.RestoredIfChainsEnd` | libxml2-static/catalog.c:1639-1646 | whatever the answer, the counters are restored if from the file on there is no endless chain of loadable next catalogs and of loadable delegates that apply to the question; the rest of the store may have cycles |
| `CatalogLeaks.SelfLoop` | libxml2-static/catalog.c:1826-1834 | a file that continues with itself finds nothing, leaves its counter at 51, and from then on is not looked at, whatever is asked |
| `CatalogResolver.AskLoop` | libxml2-static/catalog.c:1626-1843 | such a run from fresh counters, which leaves the counter at 51, and the lookup after it that is refused |
| `CatalogSpec.LookupAgree` | libxml2-static/catalog.c:1700-1732 | the declarative lookup depends only on which delegates within reach are marked as broken |
| `CatalogTwice.MoreMarksExactly` | libxml2-static/catalog.c:1670-1733 | with more unloadable references marked every answer but a cut is the same, and the file that cut cuts again over the same identifier exactly if it has an applicable delegate that is not marked |
| `CatalogTwice.ResolveCutMarks` | libxml2-static/catalog.c:1700-1732 | on every store, the file that cuts a lookup off has marked each of its applicable delegates that has no file, the first of each URL |
| `CatalogTwice.ResolveExplained` | libxml2-static/catalog.c:1700-1732 | on every store, when a delegate is newly marked, either its file is the one that cut the lookup off over that identifier, or that file has an applicable delegate with a file |
| `CatalogTwice.AskedAgain` | libxml2-static/catalog.c:1670-1733 | the same question asked again, with the counters and marks the first lookup left, gets the same answer unless it was a cut; after a cut the same file cuts again if it has an applicable delegate left unmarked, which is so if one can be loaded; otherwise, and whenever its unloadable delegates carry different URLs, the answer is the declarative one with all of those marked beforehand |
| `CatalogTwice.TwoAnswers` | libxml2-static/catalog.c:1670-1733 | for every store whose file has one unloadable delegate and one next catalog, the first lookup is cut off and the second gets the answer of the next catalog |
| `CatalogResolver.AskTwice` | libxml2-static/catalog.c:1670-1733 | two consecutive lookups of the same system identifier in the same catalogs: the first is cut off, the second finds an entry |
| `HtmlStack.EveryRun` | libxml2-static/HTMLparser.c:4458-4615 | in every state of every run html is only at the bottom of the name stack, head only right above it, body open at most once; head and body are implied at most once each; depth is the number of discarded html, head and body start tags minus the end tags absorbed for them, and so never negative |
| `HtmlStack.InvStep` | libxml2-static/HTMLparser.c:4458-4615 | each step of the content loop keeps that invariant from any state that has it |
| `HtmlStack.RootedRun` | libxml2-static/HTMLparser.c:1484-1539 | unless implied tags are switched off, the bottom of a non-empty stack is html in every run |
| `HtmlStack.AutoCloseIsPopTo` | libxml2-static/HTMLparser.c:1400-1421 | auto-closing removes a suffix of elements that the new tag closes, and as many as it can |
| `HtmlStack.CloseTargetMeans` | libxml2-static/HTMLparser.c:1331-1366 | an end tag closes the innermost element of its name, provided nothing open inside it has a higher end priority |
| `HtmlStack.EndTagPops` | libxml2-static/HTMLparser.c:3910-3970 | an end tag that is not absorbed pops down to and including that element, and changes nothing if there is none |
| `HtmlStack.NodesFollowNames` | libxml2-static/SAX2.c:1585-1830 | the node stack and the name stack agree in exactly those states of a run in which the tree builder has not given up on the depth, also over the path for a missing '>' that pops both without an end event; with the huge option it never gives up |
| `HtmlStack.PushKeepsNodes` | libxml2-static/parser.c:1752-1783 | a push keeps the two stacks equal exactly while at most 256 nodes are open or the huge option is set |
| `HtmlStack.DeepDocument` | libxml2-static/parser.c:1752-1783 | 256 nested ordinary elements leave one name without a node |
| `HtmlElements.RunNotEmpty` | libxml2-static/HTMLparser.c:4439-4444 | over every run, with tables in which html, head, body and p have content, no element that is declared empty stays open |
| `HtmlElements.StartTagLeaves` | libxml2-static/HTMLparser.c:4366-4448 | a start tag that is placed leaves one more name open if it is closed and has content, and if it is empty, self-closed or unfinished what auto-close and the implied tags left; the nodes likewise unless one is refused |
| `HtmlElements.MisplacedLeaves` | libxml2-static/HTMLparser.c:4366-4448 | a misplaced start tag leaves no more open than there was |
| `HtmlElements.EndTagAbsorbed` | libxml2-static/HTMLparser.c:3908-3917 | an end tag of html, head or body closes nothing while a misplaced start tag has none yet, and uses one of those up |
| `HtmlElements.ImpliedExactly` | libxml2-static/HTMLparser.c:1485-1539 | which of html, head and body a start tag implies: html in an empty document; head for script, style, meta, link, title and base if nothing but html is open; body for everything else but frames, unless head or body is open or has been |
| `HtmlElements.MarkedForGood` | libxml2-static/HTMLparser.c:167-190 | once head or body has been open in a run the marker says so for good |
| `HtmlElements.FirstTag` | libxml2-static/HTMLparser.c:1485-1539 | the first tag of a document is placed in the elements that it implies, and stays open if it is closed and has content |
| `HtmlElements.CharactersOpen` | libxml2-static/HTMLparser.c:1553-1581 | characters directly in html or head, or in nothing, start a paragraph, and elsewhere they change nothing |
| `HtmlElements.FirstCharacters` | libxml2-static/HTMLparser.c:1553-1581 | characters at the start of a document leave html, body and p open |
| `HtmlElements.EmptyInParagraph` | libxml2-static/HTMLparser.c:4439-4444 | an empty element in a paragraph, as br is in the tables of the source, leaves html, body and p open |
| `HtmlTables.AutoCloseKeepsStructure` | libxml2-static/HTMLparser.c:1051-1144 | with the parser's own table, auto-closing never removes html or body |
| `HtmlTables.DivIsOrdinary` | libxml2-static/HTMLparser.c:1051-1144 | div is an element of the kind that documents too deep for the tree can be made of |
| `HtmlParser.ParserCtxt.NamePush` | libxml2-static/HTMLparser.c:166-187 | the name goes on top and the insertion marker moves on at head and body |
| `HtmlParser.ParserCtxt.NamePop` | libxml2-static/HTMLparser.c:196-213 | the top name is returned and removed; an empty stack stays empty |
| `HtmlParser.ParserCtxt.NodePush` | libxml2-static/parser.c:1752-1783 | the node goes on top unless too many are open, in which case parsing stops |
| `HtmlParser.ParserCtxt.NodePop` | libxml2-static/parser.c:1790-1807 | the top node is removed; an empty stack stays empty |
| `HtmlParser.ParserCtxt.AutoCloseFor` | libxml2-static/HTMLparser.c:1400-1421 | the loop over the stack is the auto-close step |
| `HtmlParser.ParserCtxt.AutoCloseOnClose` | libxml2-static/HTMLparser.c:1331-1366 | the two loops pop what is open inside the element the end tag closes, or nothing |
| `HtmlParser.ParserCtxt.AutoCloseOnEnd` | libxml2-static/HTMLparser.c:1374-1386 | everything left open is closed |
| `HtmlParser.ParserCtxt.CheckImpliedFor` | libxml2-static/HTMLparser.c:1484-1539 | html, head and body are implied by the same conditions as in the step function |
| `HtmlParser.ParserCtxt.CheckParagraphFor` | libxml2-static/HTMLparser.c:1552-1581 | character data outside the body starts a paragraph, with everything that implies |
| `HtmlParser.ParserCtxt.ParseStartTag` | libxml2-static/HTMLparser.c:3700-3743 | a start tag auto-closes, implies, and is then pushed or, if misplaced, discarded and remembered in depth |
| `HtmlParser.ParserCtxt.ParseElementInternal` | libxml2-static/HTMLparser.c:4365-4448 | after the start tag, an empty, self-closed or unfinished element is popped from both stacks |
| `HtmlParser.ParserCtxt.ParseEndTag` | libxml2-static/HTMLparser.c:3910-3970 | an end tag is absorbed, ignored, or closes its element and all inside it |
| `HtmlParser.ParserCtxt.ParseContent` | libxml2-static/HTMLparser.c:4458-4615 | the content loop, updating the context in place, is the run of the step function over the events of the document |
| `HtmlEncode.EncodeEntities` | libxml2-static/HTMLparser.c:2089-2170 | each call stops on a character boundary, stays within the capacity, writes exactly the printed form of what it reports consumed, goes as far as it can, and returns -2 exactly when a malformed character comes next; with a table like that of the source what is written holds only ASCII, no quote character, no '<' and no '>', and each '&' in it begins a reference; ordinary input goes out as it is |
| `HtmlEncode.EncodedHarmless` | libxml2-static/HTMLparser.c:2133-2165 | for the quote characters 0, '"' and apostrophe every byte that goes out is below 0x80 and is neither the quote character nor '<' nor '>', and each '&' begins a reference closed by a semicolon |
| `HtmlEncode.OrdinaryGoesOut` | libxml2-static/HTMLparser.c:2133-2138 | an ASCII character that is neither the quote character nor '&', '<' or '>' goes out as itself, wherever it stands |
| `HtmlBytes.PointRead` | libxml2-static/HTMLparser.c:2104-2130 | whatever follows its bytes, a code point of up to 21 bits is read as itself |
| `HtmlBytes.RefusedExactly` | libxml2-static/HTMLparser.c:2104-2130 | input is malformed exactly where a byte cannot begin a character, or where all the bytes it announces are there and one is no trailing byte; a call waits exactly where they are not all there |
| `HtmlEncode.CallDetermined` | libxml2-static/HTMLparser.c:2089-2170 | that description admits one outcome only |
| `HtmlEncode.ChainIsOneShot` | libxml2-static/HTMLparser.c:2089-2170 | any chain of calls with any capacities, each fed what is left over, concatenates to the one-shot encoding of valid input |
| `HtmlEncode.CallProgress` | libxml2-static/HTMLparser.c:2089-2170 | on valid input a call consumes nothing exactly when there is no room for the first character |
| `HtmlEncode.PrintRead` | libxml2-static/HTMLparser.c:3981-4048 | whatever follows it, a printed character is read back by the reference parser as its code point, and as nothing if it is no legal character |
| `HtmlEncode.NumberRead` | libxml2-static/HTMLparser.c:3309-3369 | a printed decimal reference is read back as its number, with its length |
| `HtmlEncode.NameRead` | libxml2-static/HTMLparser.c:2672-2708 | a printed named reference is read back as the code point of the name, with its length |
| `HtmlReferences.HexReference` | libxml2-static/HTMLparser.c:3309-3369 | a hexadecimal reference, x and digits in either case, with a semicolon or without, stands for its number, or for nothing if that is no legal character |
| `HtmlReferences.DecimalReference` | libxml2-static/HTMLparser.c:3309-3369 | a decimal reference likewise, with a semicolon or without |
| `HtmlReferences.NameReference` | libxml2-static/HTMLparser.c:3982-4048 | a name stands for its character only with a semicolon and if the table knows it, and is text otherwise |
| `HtmlReferences.AmpersandAlone` | libxml2-static/HTMLparser.c:4006-4013 | an ampersand that begins neither a number nor a name stands for itself |
| `HtmlEncode.LegalCharExactly` | libxml2-static/HTMLparser.c:3361-3368 | the legal characters are those of section 2.2 of XML 1.0 |
| `HtmlReader.Reader.ParseCharRef` | libxml2-static/HTMLparser.c:3309-3369 | the digit loops read the number and its extent, and yield 0 for what is no legal character |
| `HtmlReader.Reader.ParseEntityRef` | libxml2-static/HTMLparser.c:2672-2708 | the name is read, and the semicolon after it is taken only if the table has the name |
| `HtmlReader.Reader.ParseReference` | libxml2-static/HTMLparser.c:3981-4048 | the text delivered for a reference and the input it takes are those of the reference function that the round trip is about |
| `HtmlReader.Reader.ParseText` | libxml2-static/HTMLparser.c:4580-4602 | character data and references read up to markup, position by position, give the text of the reading function |
| `HtmlEncode.Reencoded` | libxml2-static/HTMLparser.c:3988-4004 | re-encoding a decoded character gives its own bytes back exactly when they were its shortest form (section 2 of RFC 2044) |
| `HtmlEncode.RoundTrip` | libxml2-static/HTMLparser.c:2089-2170 | reading the printed form gives the input back exactly when every character of it is legal in XML and in its shortest form |
| `Entities.EntityValueLookup` | libxml2-static/HTMLparser.c:1955-1968 | the scan that stops at the first larger value finds the entry of the value whenever there is one, because the table ascends |
| `Entities.EntityLookup` | libxml2-static/HTMLparser.c:1932-1943 | the scan finds the first entry of the name, and nothing only if there is none |
| `Entities.UsableIsGood` | libxml2-static/HTMLparser.c:1932-1968 | if values ascend and names differ, every name leads back to the value it was found under |
| `EntityTable.BlockHtml40` | libxml2-static/HTMLparser.c:1618-1899 | the 253 entries ascend by value, are legal characters, have name-like names, and each name's key leads back to its own place only |
| `EntityTable.Html40RoundTrip` | libxml2-static/HTMLparser.c:1618-1899 | the table of the source satisfies what the round trip asks of a table, so the round trip holds with it |
| `HtmlLookup.Input.LookupSequence` | libxml2-static/HTMLparser.c:5045-5157 | with iscomment set, a search answers for the bytes from checkIndex on, and its new checkIndex is determined; if checkIndex kept its promise the answer is that of a scan of the whole buffer from the current position, and the new one keeps it again |
| `HtmlLookup.Input.PushUntilFound` | libxml2-static/HTMLparser.c:5045-5157 | input pushed in any pieces gives the answer of one search over all of it, and the bytes of the sequence are at the place found |
| `HtmlLookup.RememberedAppend` | libxml2-static/HTMLparser.c:5045-5157 | what checkIndex promises survives appended bytes, including the state of the quotes |
| `HtmlLookup.HitSpelt` | libxml2-static/HTMLparser.c:5085-5126 | a hit is exactly where all characters of the sequence are, in order, outside quotes and not at a quote, or within one kind of quotes at the other kind |
| `HtmlLookup.CommentEnd` | libxml2-static/HTMLparser.c:5110-5116 | the search for the end of a comment hits exactly where the three bytes are and no quote is open |
| `HtmlLookup.Quoted` | libxml2-static/HTMLparser.c:5085-5102 | a quote stays open up to its next occurrence, whatever else comes, and is closed there |
| `HtmlLookup.AnswerStable` | libxml2-static/HTMLparser.c:5045-5157 | what has been found stays found at the same place when bytes are appended |
| `HtmlLookup.TakenUpExactly` | libxml2-static/HTMLparser.c:5061-5066 | a search taken up where no quote is open is right exactly if the sequence does not occur before that point |
| `HtmlLookup.OtherSequence` | libxml2-static/HTMLparser.c:5045-5157 | a search for another sequence with no reset in between is right exactly if the first search found something or the other sequence does not occur in front of the index that it left |
| `Buffer.XmlBuf.CheckCompat` | libxml2-static/buf.c:59-76 | as long as every operation ends with UPDATE_COMPAT, CHECK_COMPAT changes nothing, also for sizes beyond 31 bits |
| `Buffer.XmlBuf.SetScheme` | libxml2-static/buf.c:286-317 | the scheme changes unless it is fixed; -1 is also returned for the switch to IO, which is made |
| `Buffer.XmlBuf.Clear` | libxml2-static/buf.c:352-371 | the bytes are gone, the zero is in place, and an IO buffer has its head room back as capacity |
| `Buffer.XmlBuf.Shrink` | libxml2-static/buf.c:385-421 | exactly the first bytes are dropped, whether the content pointer or the bytes move; afterwards an IO buffer has less head room than room |
| `Buffer.XmlBuf.GrowInternal` | libxml2-static/buf.c:434-482 | at least the asked free bytes and one more, the bytes untouched; what a full buffer then has behind its end is what memory holds there |
| `Buffer.XmlBuf.Grow` | libxml2-static/buf.c:494-504 | nothing is done when nothing is asked for; otherwise more than the asked bytes are free |
| `Buffer.XmlBuf.Inflate` | libxml2-static/buf.c:516-523 | room for the asked bytes beyond the whole former size |
| `Buffer.XmlBuf.Resize` | libxml2-static/buf.c:730-830 | room for the asked size under every scheme and in every branch, the bytes untouched; failure exactly in error, for immutable buffers, or when no 32-bit size suffices |
| `Buffer.XmlBuf.Add` | libxml2-static/buf.c:844-881 | the bytes are appended, or the buffer is untouched and says why |
| `Buffer.XmlBuf.AddHead` | libxml2-static/buf.c:895-953 | the bytes are put in front, into head room or by moving the rest, or the buffer is untouched and says why |
| `Buffer.XmlBuf.AddLen` | libxml2-static/buf.c:606-620 | bytes written behind the end become part of the buffer; -1 is also returned when they fill it to the last byte, although they are taken then |
| `Buffer.XmlBuf.Erase` | libxml2-static/buf.c:631-642 | exactly the last bytes are dropped |
| `Buffer.XmlBuf.Perform` | libxml2-static/buf.c:352-953 | any run of operations under any scheme is the same run on a plain byte sequence, with head room and size within the allocation at every step, and stops only at an operation that is not admitted or meets an error; a zero in place at the start is in place at the end exactly if the buffer is not full and no operation lost it, and always if no bytes produced directly fill the buffer |
| `Buffer.EndedExactly` | libxml2-static/buf.c:352-953 | the zero is lost by an operation that makes room behind a full buffer without writing there, where memory holds no zero, and for good if no later operation writes one or fills the buffer again; in no other way |
| `Buffer.StepFills` | libxml2-static/buf.c:352-953 | of all operations only bytes produced directly can fill a buffer to the last byte |
| `Buffer.FilledExactly` | libxml2-static/buf.c:606-620 | a run has the buffer full after some operation exactly if some bytes produced directly fill it |
| `Buffer.FillThenGrow` | libxml2-static/buf.c:434-620 | a new buffer filled to the last byte and then grown is terminated exactly if the byte that memory holds there happens to be zero |
| `Buffer.XmlBuf.PerformAndUndo` | libxml2-static/buf.c:352-953 | any run that only adds is undone by erasing and shrinking in the opposite order, which is admitted wherever the run has led; only an error in the run prevents it |
| `Sax2.ParserCtxt.Characters` | libxml2-static/SAX2.c:2515-2632 | character data continues a text at the end of the current node or starts one; over any run nodelen is exact, nodelen < nodemem <= 4 * nodelen + 1, and the bytes moved by reallocations stay within nodemem |
| `Sax2.ParserCtxt.NewText` | libxml2-static/SAX2.c:1843-1919 | a new text holds the data, and the accounting starts with no room to spare |
| `Sax2.ParserCtxt.Own` | libxml2-static/SAX2.c:2574-2580 | a text kept in the node or in the dictionary is copied to the heap before it is written to |
| `Sax2.ParserCtxt.Enlarge` | libxml2-static/SAX2.c:2595-2608 | after a reallocation there is room for the data, the bounds hold again, and the capacity has at least doubled |
| `Sax2.ParserCtxt.Concat` | libxml2-static/SAX2.c:2612-2619 | when the accounting was given up the text is concatenated exactly and the accounting starts again |
| `Sax2.ParserCtxt.Graft` | libxml2-static/parser.c:7556-7560 | entity text merged into a text gives the accounting up and leaves the text exact |
| `Sax2.ParserCtxt.AddNode` | libxml2-static/SAX2.c:2661-2777 | a comment or processing instruction becomes the last child, so that character data after it starts a new text |
| `Sax2.ParserCtxt.StartElement` | libxml2-static/SAX2.c:1584-1782 | a start event opens an element below the current one and puts the accounting out of use |
| `Sax2.ParserCtxt.EndElement` | libxml2-static/SAX2.c:1791-1830 | an end event makes the current element the last child of its parent |
| `TreeBuilder.RunContent` | libxml2-static/SAX2.c:2515-2632 | the text of the tree is all character data received inside elements, in order, exactly if no piece of it would have made a text longer than the limit |
| `TreeBuilder.RunApart` | libxml2-static/SAX2.c:2515-2632 | in no tree built by any run do two texts stand side by side |
| `TreeEvents.TreeTells` | libxml2-static/SAX2.c:1584-2777 | the tree of any run, written out again as events, is what was received: the starts, nodes and ends in order, with neighbouring character data in one, and without data outside elements, data that would make more than ten million bytes of a text, and ends of nothing |
| `TreeEvents.MarkupKept` | libxml2-static/SAX2.c:1584-2777 | the starts and the nodes of the tree, in document order, are those of the run |

## Left out

- Partial node-sets: the visibility callback, `nodeTab` of the namespace stack, `xml:` attributes inherited from hidden parents and `xml:base` fix-up; every node is visible.
- The C14N 1.1 mode and the InclusiveNamespaces prefix list of exclusive mode.
- Attributes in a namespace with a null prefix, which namespace-well-formed documents do not have and on which the comparator is not antisymmetric; non-null empty prefixes.
- C14N.Canonicalise: leaves out argument checks and the flush of the output buffer of `xmlC14NExecute`; on failure the text written so far is not specified.
- CanonicalProps.MeaningPreserved: is about the canonical tree; an XML parser for the printed bytes is not part of this model.
- CanonicalBytes.SameBytesSameMeaning: asks of names only that they hold no blank, quote or markup character, and of both documents that no text stands outside their elements and no carriage return in comments and processing instructions, which parsed documents satisfy.
- CanonicalAgain.Idempotent: URIs, values and texts are read where they are printed; finding them between the markup is what CanonicalDecode.PrintInjective is about, not a tokeniser, and characters above 0x7F are not checked for being legal.
- UriSyntax.BracketedParsed: only scheme and host are kept of what the URI parser finds; strings hold no zero byte.
- Reading catalog files: a store maps each URL to its parsed entries; mutexes, debug output, allocation failure, the environment and the marking of top-level catalogs as broken are left out, the last of which has no effect on answers.
- `xmlCatalogXMLResolveURI`, which never bumps its counter, and the SGML catalogs.
- CatalogResolver.Resolver.Resolve: the declarative answer is stated for stores without cycles only; on others the answer depends on where the counters stand, as the run function says.
- CatalogLeaks.RestoredExactly: is exact for lookups that find nothing; for the others CatalogLeaks.RestoredIfChainsEnd is one way, and CatalogRun.RestoredUnlessForgotten is exact in terms of the run.
- CatalogTwice.AskedAgain: when unloadable delegates of the file share a URL, whether one of them is left unmarked is stated in terms of the first lookup, because it depends on the capped table of files already tried.
- The push-mode state machine, encodings, attribute parsing, the contents of script and style, DTD validation.
- HtmlStack.EveryRun: events are given in any order and number, also those the content loop cannot read after the end of input.
- `UTF8ToHtml`, which leaves markup characters raw and goes on over malformed trailing bytes, so that nothing undoes it.
- HtmlEncode.NumberRead: this and HtmlReferences.HexReference: references whose number exceeds the C `int` are read by unbounded arithmetic.
- HtmlEncode.NameRead: names are ASCII names; the fallback for other names (`htmlParseNameComplex`) is not part of this model.
- HtmlReader.Reader.ParseText: bytes above 0x7F are taken one by one, where the C code decodes them first; that differs only for malformed sequences and for code points that are no legal characters.
- HtmlLookup.Input.LookupSequence: only with iscomment set; otherwise comment openers near the end of the buffer are recognised differently on a rescan, and the cache is not exact.
- Buffer.XmlBuf.Add: sizes and lengths are those whose sums fit 32 bits, as the C code computes them; data that lies inside the buffer itself is not modelled.
- Buffer.XmlBuf.Erase: requires room for the zero, because the C code writes it even after erasing nothing from a full buffer; immutable buffers only reject writes, and `xmlBufEmpty`, `xmlBufErase` and `xmlBufAddLen` are not called on them.
- Buffer.XmlBuf.Perform: says nothing about the zero of buffers that start without one, such as those created without any room; bytes that realloc would keep from behind the end of the buffer's room count as unknown.
- `xmlBufDetach`, `xmlBufCCat`, `xmlBufCat`, the attached old-style buffer.
- Sax2.ParserCtxt.Characters: pieces hold no zero byte, and with the huge option the doubled capacity has to fit an `int`; the two checks against the range of `size_t` cannot fail then and are left out, as is the depth limit of the node stack, which HtmlStack has.
- Other trees: XInclude, XPath, schemas, readers and writers are not part of this model.
