# Verification model of the Brainiac console

A Dafny 4.11 model of the parts of the console that decide what a reader is told: the parser of
composed pages and its citation numbering, what the reader derives from a parsed page, the address
grammar, the wiki directory and its navigation, and four smaller algorithms (session cookies, the
weekly join, the mock hash, the colour fade). `dafny verify dfyconfig.toml` checks all of it.

## What is modelled

**Composed pages** (`Text`, `Numbering`, `Marker`, `Inline`, `InlineParser`, `Outline`, `Page`). The two
cursor loops of `markdown.ts` are methods over a shared, mutable `Numbering` object. They are proved
against a specification in two independent layers: `Outline` says which lines make which block,
`Inline` says which nodes a line of text makes, both without numbers; `Stamp` then numbers a tree from
an order. `Page.ParseDoc` is proved to return exactly the stamped tree and `Order`. About that
specification:

- *Numbering* (`PageOrder`): the order is the first-occurrence order of the cited ids, every number is
  the place of its own id, the order only grows while parsing, and these promises determine it.
- *Citations* (`Citations`, `PageCitations`, `NestedFooter`): no text node, however deep, shows a marker;
  and an exact condition for every marker of a line, or of a page, to become a citation.
- *Losslessness* (`Tiling`, `CharByChar`): a declarative account of which construct starts where,
  equivalent to the lexer; nodes that tile the normalised text at every depth; a reference parser that
  goes character by character, with the same result; and no link but to the web or into the console.
- *Shapes* (`Characters`, `MarkerShapes`, `Shapes`): what a marker, a footer and every kind of line look
  like, as concatenations, equivalent to the predicates that the parser uses.
- *Conservation* (`Conservation`): the consumed line ranges tile the page, each accounts for its lines,
  and the lines that are dropped are exactly described.
- *Round trip* (`Printer`, `Reprint`, `Reparse`): parsing undoes printing for every well-formed list of
  blocks; exactly which parsed blocks are well-formed; and a page comes back unchanged exactly when all
  of its blocks are.

**The reader** (`Reader`): rail, banner, rims and unresolved citations agree on every page.

**Addresses** (`Query`, `Address`): a real query string, serialized and parsed as in sections 5.1 and 5.2
of the WHATWG URL Standard, between `encodeAddress` and `decodeAddress`. `DocsAddress` sets it against the wiki's own parameters.

**The wiki** (`Lists`, `Sorting`, `Directory`, `PageTree`, `Navigation`): facets, counts, filters, paging,
the second grouping in `tree.ts`, and runs of navigation steps on the URL.

**Smaller cores** (`Numbers`, `Session`, `Weekly`, `Hash`, `Colour`).

### Conventions

- A string is a sequence of Unicode scalar values; `Hash` works on UTF-16 code units, as its source does.
  White space and line terminators are those of ECMAScript. Regular expressions are written as predicates.
- A JavaScript `Map` with an order that matters is its sequence of entries, in insertion order.
- `sort` is a stable sort by a comparison function. It never compares an element with itself, which
  matters for `buildSpaces`: its comparison is not antisymmetric on `unfiled` (`SortSame`).
- UTF-8, SHA-256, HMAC, `localeCompare`, `toLowerCase` on titles, `Number(…)` and the rounding of doubles
  are parameters with only these laws: UTF-8 decoding undoes encoding and leaves ASCII alone; digests have
  32 bytes; comparison is a strict total order in which only equal strings tie; `Number` undoes the
  printing of natural numbers, and an absent page and an empty one read alike; rounding is off by at most
  2^-53 of the value. Nothing is assumed of `toLowerCase`.
- The clock, the random nonce and the environment variables are parameters. Each navigation is one
  atomic step.

### Findings

- **A marker can be lost although the normalised line has no backtick and no `](`.** The footer rewrite
  runs again on the inside of strong and em, and a footer nested in a footer may then leave `](`
  behind: `NestedFooter.NestedFooterLosesMarker` gives the line. The exact condition is `Exposed`
  (`Citations.TreeCites`: if and only if); a check on the line alone is `Sightly`, no backtick and no `](`
  however often its footers are rewritten (`Citations.AllMarkersCited`).
- **A few non-blank lines vanish**: indented headings, fence openers with more than one word after the
  backticks, a rule prefix with something after it, and headings or list items that contain a
  carriage return, U+2028 or U+2029. `Conservation.DroppedExactly` is an if and only if; such a line
  that holds a `|` above a delimiter row is kept as a table head. `IndentedHeadingDropped`,
  `TwoWordFenceDropped`, `LongRuleDropped` and `BrokenItemDropped` each give a page that comes to nothing.
- **The two directories differ** on a slug without a slash, on one that starts with a slash, and on a
  corpus in which some space is smaller than the `unfiled` one, or as large and after it by name.
  `PageTree.DirectoriesAgree` is an if and only if; `PageTree.DirectoriesDiffer` gives three corpora.
- **`soft` is not `withAlpha`** on rgb colours, where it writes `hsla`, nor on a `#` that is no number, where
  it writes black, nor on three digits before a space, which it does not double (`Colour.SoftDiffers`); `Colour.SoftAgrees` says on exactly which strings they agree.
- **`space` and `tab` do not survive the address grammar**: the docs module declares `q`, `topic`, `status`
  and `page` only. A wiki URL written as an address and opened again shows the same view if and only if
  it had no space and no tab (`DocsAddress.AddressForgets`); `SpaceForgotten` and `TabForgotten` give two.
- **Not every parsed page prints back to itself**: `#` over `x` is the paragraph `# x`, which prints as a
  heading (`Reparse.SpoiledPage`). `Reparse.ReprintParses` is an if and only if: a page comes back unchanged
  exactly when no stretch of its lines spoils its block, in one of the four ways that `Reprint.Spoiled`
  lists.

## Model

| member | source | states |
|---|---|---|
| Characters.SpaceExactly | console/src/docs/markdown.ts:141-239 | white space and line terminators, code point by code point |
| Characters.HexExactly | console/src/docs/markdown.ts:27-27 | a hex digit stands at the place of its value, in either case |
| Characters.LowerExactly | console/src/docs/markdown.ts:91-180 | lower-casing changes the 26 capital letters and nothing else |
| Numbering.Numbering.NumberFor | console/src/docs/markdown.ts:61-69 | a known id keeps its number and the list; a new one is appended and gets the new length |
| Numbering.FindStays | console/src/docs/markdown.ts:61-69 | growing the list never changes a number once given |
| Numbering.FirstSeenDistinct | console/src/docs/markdown.ts:61-69 | numbering any run of ids keeps the list free of repeats |
| Numbering.FirstSeenSorted | console/src/docs/markdown.ts:56-56 | ids stand in the order of their first appearance |
| InlineParser.ParseInline | console/src/docs/markdown.ts:75-139 | the cursor loop, with recursion and the shared numbering, returns the numbered tree of its input and appends exactly its new ids, in reading order |
| InlineParser.ParseToken | console/src/docs/markdown.ts:86-136 | one turn of the loop takes exactly the construct at the cursor and advances by its length |
| InlineParser.StampStays | console/src/docs/markdown.ts:61-139 | nodes already built keep their numbers however the shared list grows |
| MarkerShapes.MarkerExactly | console/src/docs/markdown.ts:27-27 | a marker is `[m:`, hex digits in groups of 8, 4, 4, 4 and 12, and `]`, and its memory is those in lower case |
| MarkerShapes.FooterExactly | console/src/docs/markdown.ts:29-29 | a text starts with a footer if and only if its first characters are an opening tag, white space, a marker in either case of `m`, white space and a closing tag |
| MarkerShapes.CollapseFirst | console/src/docs/markdown.ts:77-77 | rewriting keeps what is before the first footer, puts the bare marker in its place and goes on behind it |
| MarkerShapes.CollapseNone | console/src/docs/markdown.ts:77-77 | a text without a footer is left alone |
| Marker.FooterThen | console/src/docs/markdown.ts:29-29 | every string of the footer's form, in any letter case and with any white space around its marker, is recognised whatever follows |
| Marker.CollapseSettles | console/src/docs/markdown.ts:29-77 | after one rewrite no footer with a capital `M` marker is left anywhere |
| Marker.CollapseKeepsMarkers | console/src/docs/markdown.ts:77-77 | rewriting the footers again, as every recursive call does, keeps the markers of a text and their order |
| Marker.CollapseMakesNone | console/src/docs/markdown.ts:77-77 | removing a footer's tags never makes a marker out of the characters around it |
| Marker.CollapseApart | console/src/docs/markdown.ts:77-77 | what stands on either side of a `*` or `_`, or any other character that footers are not made of, is rewritten as if it stood alone |
| Tiling.LexIsWhatBegins | console/src/docs/markdown.ts:86-136 | at every place of a text the parser takes the one construct that a declarative account says begins there, or, where none does, the characters up to the next backtick, star, underscore or bracket, at none of which one opens |
| Tiling.NothingSkipped | console/src/docs/markdown.ts:132-136 | a plain run passes over no construct |
| CharByChar.TreeSlow | console/src/docs/markdown.ts:75-139 | the parse is that of a parser that takes one character at a time where no construct opens |
| CharByChar.TreeSafe | console/src/docs/markdown.ts:121-130 | every link of every parse, at every depth, leads to http, to https or into the console |
| Tiling.TreeTiles | console/src/docs/markdown.ts:75-139 | the nodes account for every character of the normalised text, verbatim, at every depth |
| Citations.TreeClean | console/src/docs/markdown.ts:79-83 | for every string, at every depth: no empty text node, no two adjacent ones, and none that contains a whole marker |
| Citations.TokenBoundary | console/src/docs/markdown.ts:86-136 | no construct ends inside a marker |
| Citations.TreeCites | console/src/docs/markdown.ts:27-139 | the citations of a line, in order, are exactly its markers, lower-cased, if and only if no code span and no link, at any depth, has a marker among its own characters |
| Citations.AllMarkersCited | console/src/docs/markdown.ts:27-139 | with no backtick and no `](`, however often the footers are rewritten, every marker becomes a citation: strong and em may nest, and each level may rewrite footers of its own |
| Citations.NoFooterSightly | console/src/docs/markdown.ts:27-139 | in particular when the once rewritten line has no backtick, no `](` and no footer left |
| PageCitations.SightlyPage | console/src/docs/markdown.ts:156-251 | when that holds of every inline text of a page, its citation order is that of all its markers |
| NestedFooter.NestedFooterLosesMarker | console/src/docs/markdown.ts:77-108 | a line without backtick and `](` after one rewrite whose marker is nonetheless lost, because the rewrite runs again under strong |
| PageCitations.PageComplete | console/src/docs/markdown.ts:156-251 | the citations of a page are exactly the markers of its inline texts, table heads before rows, if and only if none of them is hidden; and then the order is theirs |
| Page.ParseCells | console/src/docs/markdown.ts:142-148 | the cells of a line are parsed left to right under one numbering |
| Page.ParseFence | console/src/docs/markdown.ts:173-183 | a fence keeps its lines verbatim up to a closing line or the end of the page, cites nothing, and an unclosed one leaves the cursor one past the end |
| Page.ParseTable | console/src/docs/markdown.ts:209-219 | a table numbers its head before its rows and ends at the first line that is blank or has no bar |
| Page.ParseList | console/src/docs/markdown.ts:221-233 | a list takes the run of items of the kind of its first one |
| Page.ParsePara | console/src/docs/markdown.ts:236-247 | a paragraph takes lines up to a blank one or a breaker; taking none drops one line and makes no block |
| Page.ParseBlock | console/src/docs/markdown.ts:163-248 | one turn of the page loop applies the first rule, in source order, that accepts the line |
| Page.ParseDoc | console/src/docs/markdown.ts:156-251 | the whole parser returns the block tree of the page with every citation numbered, and the citation order; it terminates on every input |
| PageOrder.ParsedWellNumbered | console/src/docs/markdown.ts:54-58 | on every page the order has no repeats, holds exactly the cited ids by first appearance, and every citation's number is the place of its own id |
| PageOrder.WellNumberedUnique | console/src/docs/markdown.ts:54-58 | those promises leave only one possible order |
| PageOrder.OrderOnlyGrows | console/src/docs/markdown.ts:157-250 | after any number of blocks the order is a prefix of the final one and those blocks already carry their final numbers |
| Conservation.PiecesTile | console/src/docs/markdown.ts:163-248 | the consumed line ranges are non-empty, in order, and together are the page; their blocks are the page's blocks |
| Conservation.PageAccounts | console/src/docs/markdown.ts:163-248 | each range accounts for its lines: the text of a block is that of its lines, and a range without a block is one line, blank or a misfit |
| Conservation.PiecesStop | console/src/docs/markdown.ts:198-247 | no paragraph, quote, list or table stops short of a line that could go on with it |
| Conservation.MisfitExactly | console/src/docs/markdown.ts:173-239 | a line stops a paragraph yet opens no block if and only if it has one of four shapes |
| Conservation.DroppedExactly | console/src/docs/markdown.ts:243-246 | a line makes no block if and only if it is blank, or a misfit that does not start a table |
| Conservation.KindExactly | console/src/docs/markdown.ts:163-248 | which kind of block starts at a line, each kind if and only if: no line opens two kinds, tables give way to fences, headings and quotes and come before lists and paragraphs |
| Shapes.BlankExactly | console/src/docs/markdown.ts:165-165 | a line is blank if and only if it is white space |
| Shapes.FenceExact | console/src/docs/markdown.ts:173-179 | a fence opener is white space, three or more backticks, white space and at most one word, and that word is its info |
| Shapes.ClosesExact | console/src/docs/markdown.ts:177-192 | a closing fence is three or more backticks between white space, a rule three or more of one of `-`, `*`, `_` |
| Shapes.HeadingExact | console/src/docs/markdown.ts:185-187 | a heading is one to six `#` at the very start, white space, and a text on one line, trimmed |
| Shapes.QuoteExact | console/src/docs/markdown.ts:198-201 | a quoted line is white space, `>`, at most one white space character, and its text |
| Shapes.ItemExact | console/src/docs/markdown.ts:221-228 | a list item is white space, a dash, star or plus, or any digits and a full stop, white space, and its text on one line |
| Shapes.DelimExact | console/src/docs/markdown.ts:141-141 | a delimiter row has a dash and otherwise only dashes, colons, bars and white space |
| Shapes.RowExact | console/src/docs/markdown.ts:213-213 | a table row is a line with a bar |
| Shapes.CellsExact | console/src/docs/markdown.ts:142-148 | the cells of a line are what stands between its bars, but for one at either end, trimmed |
| Shapes.BreakerExact | console/src/docs/markdown.ts:239-239 | a paragraph stops at white space followed by a heading mark and white space, `>`, a fence, three rule characters, or an item mark and white space |
| Conservation.IndentedHeadingDropped | console/src/docs/markdown.ts:185-246 | an indented heading makes no block |
| Conservation.TwoWordFenceDropped | console/src/docs/markdown.ts:173-246 | a fence opener with two words makes no block |
| Conservation.LongRuleDropped | console/src/docs/markdown.ts:192-246 | three dashes and a word make no block |
| Conservation.BrokenItemDropped | console/src/docs/markdown.ts:221-246 | a list item with a carriage return in it makes no block |
| Printer.ReadBlock | console/src/docs/markdown.ts:163-248 | a printed block followed by a blank line is read back as that block and nothing more |
| Printer.ParseUndoesPrint | console/src/docs/markdown.ts:156-251 | the printed text of any list of well-formed blocks parses to those blocks, in order, fence bodies verbatim |
| Reprint.PieceWellFormed | console/src/docs/markdown.ts:163-248 | a parsed block is well-formed if and only if its lines are none of four kinds: a paragraph that starts with a bare marker over another line, a quote or a fence with a line that ends in a carriage return, an info word that starts with a backtick, an item with a bar over an item of table delimiters |
| Reprint.PageWellFormed | console/src/docs/markdown.ts:156-251 | all blocks of a page are well-formed if and only if no stretch of its lines is of those kinds |
| Reparse.PageParsed | console/src/docs/markdown.ts:163-248 | what every parsed block satisfies, well-formed or not: a paragraph whose text would open a block starts with a bare marker and a space, a fence's lines do not close it, an item has no line terminator |
| Reparse.BlockAgain | console/src/docs/markdown.ts:156-251 | any such block, printed and parsed again before a blank line, comes back as itself if it is well-formed, and otherwise as something else or not at all |
| Reparse.PrintParsesExactly | console/src/docs/markdown.ts:156-251 | the text of any list of such blocks parses to those blocks if and only if all are well-formed |
| Reparse.ReprintParses | console/src/docs/markdown.ts:156-251 | printing the blocks of a page and parsing the text again gives the same blocks if and only if no stretch of its lines is of the four kinds |
| Reparse.SpoiledPage | console/src/docs/markdown.ts:235-247 | the page of `#` over `x` is one paragraph, and its printed text is one heading |
| Reader.ByIdExactly | console/src/docs/DocReader.tsx:406-407 | an id resolves to the last citation that has it, in lower case, and to none if none has |
| Reader.NarrowExactly | console/src/docs/facets.ts:24-26 | a citation keeps its lifecycle if it is `in_flight` or `proposed`, and is shipped otherwise |
| Reader.RimExactly | console/src/docs/DocReader.tsx:226-455 | a block is rimmed with the lifecycle of the first memory it cites that is `in_flight` or `proposed`, as its last citation was sent, and not rimmed if there is none |
| Reader.LifecyclesOfBlock | console/src/docs/DocReader.tsx:226-248 | the walk over a block meets exactly the resolved ids that the parser numbered in it, in the same order |
| Reader.HotExactly | console/src/docs/DocReader.tsx:454-456 | a block is rimmed if and only if it cites a memory that is not shipped |
| Reader.RimMatchesRail | console/src/docs/DocReader.tsx:419-456 | a block is rimmed if and only if it cites the memory of an unshipped rail entry |
| Reader.BannerMatchesRims | console/src/docs/DocReader.tsx:419-456 | the page has an unshipped rail entry if and only if some block is rimmed |
| Reader.PageMatchesRail | console/src/docs/DocReader.tsx:407-419 | on every page every marker, in every block and at every depth, shows the number of the rail entry of its own memory |
| Reader.ReadWithCareExactly | console/src/docs/DocReader.tsx:406-430 | on every page the banner shows if and only if the last citation of some cited id says `in_flight` or `proposed`, or some cited id has no citation; and if and only if some block is rimmed or some citation is unresolved |
| Reader.UnresolvedExactly | console/src/docs/markdown.ts:258-261 | unresolved are the cited ids that no citation has |
| Reader.UnresolvedAgree | console/src/docs/markdown.ts:258-261 | the rail's unresolved entries are the unresolved citations in the same order, and with the resolved ones they partition the order |
| Query.QueryRoundTrip | console/src/design/routes.ts:302-313 | any list of names and values, of any characters, survives being written into a query string and parsed |
| Query.ByteExactly | console/src/docs/DocWiki.tsx:110-114 | a space is written as a plus, an unreserved byte as itself, any other as a percent sign and two upper-case hex digits |
| Query.LenientReading | console/src/docs/DocWiki.tsx:110-110 | escapes are read in either case, a percent sign that escapes nothing stays, empty parts are passed over, and a name may have no value |
| Query.WithFirst | console/src/docs/DocWiki.tsx:107-117 | setting a parameter changes what is read under its name and under no other |
| Query.WithReads | console/src/docs/DocWiki.tsx:107-117 | setting a parameter leaves its name the one value and every other pair in its place |
| Query.UrlSearchParams.Set | console/src/docs/DocWiki.tsx:110-120 | the scan that changes the first pair of a name and removes its later ones, or appends one: the name then reads as the one value, and every other pair is as before, in its place |
| Query.UrlSearchParams.Delete | console/src/docs/DocWiki.tsx:112-119 | the scan that removes every pair of a name: it then reads as nothing, and every other pair is as before |
| Query.BagFirst | console/src/docs/wiki-data.ts:64-65 | the first value of a parameter in the page's parameter bag, repeated or not, is the first one of the query string |
| Address.DecodeAddress | console/src/design/routes.ts:275-295 | the loop over the module's declared filters yields the decoded address |
| Address.EncodeAddress | console/src/design/routes.ts:302-313 | the successive `set` calls write the address's pairs in the grammar's order |
| Address.NamesDistinct | console/src/design/routes.ts:220-243 | no module declares a filter twice or takes one of the grammar's own names |
| Address.DeclaredExactly | console/src/design/routes.ts:228-243 | which modules declare each filter, name by name |
| Address.SegmentsExactly | console/src/design/routes.ts:60-128 | the fourteen names of the modules; any other, and none, is analytics |
| Address.EncodedStarts | console/src/design/routes.ts:302-313 | every link is one into the console and starts with its module |
| Address.ExampleLink | console/src/design/routes.ts:302-313 | one link with something under every name of the grammar, in its order |
| Address.NormalExactly | console/src/design/routes.ts:275-295 | what normalising keeps: fields and declared filters that are not empty |
| Address.ParseModuleExactly | console/src/design/routes.ts:125-128 | the parameter names a module if and only if it is its segment, or no segment at all and the module is the default one |
| Address.AddressRoundTrip | console/src/design/routes.ts:275-313 | opening the link of any address, through a real query string, gives that address without empty fields and undeclared filters |
| Address.SameLink | console/src/design/routes.ts:302-313 | two addresses are the same link if and only if their normal forms are equal |
| Address.DecodedIsNormal | console/src/design/routes.ts:275-313 | what was decoded is already normal, so encoding and decoding it again changes nothing |
| Address.DecodeIgnoresTheRest | console/src/design/routes.ts:275-295 | decoding reads the first values of the declared names and nothing else |
| Address.DecodeIgnoresUndeclared | console/src/design/routes.ts:275-295 | undeclared parameters, put anywhere, change nothing |
| Address.DecodeIgnoresOrder | console/src/design/routes.ts:275-295 | parameters in any other order decode alike, as long as the values of a repeated name keep theirs |
| Address.OnceReordered | console/src/design/routes.ts:275-295 | when no name is repeated, any reordering of the parameters is such an order |
| DocsAddress.AddressForgets | console/src/design/routes.ts:228-313 | a wiki URL written as an address and opened again keeps its search and page and loses its space and tab, so it shows the same view if and only if it had neither |
| DocsAddress.SpaceForgotten | console/src/design/routes.ts:236-236 | the space of `?m=docs&space=x` is gone |
| DocsAddress.TabForgotten | console/src/design/routes.ts:236-236 | the tab of `?m=docs&tab=review` is gone |
| Directory.DemoWiki | console/src/docs/wiki-data.ts:90-134 | counting, filtering in three optional steps, clamping and slicing yield the page of the narrowing |
| Directory.SpaceKeyExactly | console/src/docs/tree.ts:57-60 | a space key is the part of a slug before its first slash, and nothing else is |
| Directory.StepwiseMatched | console/src/docs/wiki-data.ts:111-118 | the three optional filters one after the other are the conjunction filter in corpus order |
| Directory.MatchedExactly | console/src/docs/wiki-data.ts:111-118 | a document matches if and only if it is in the corpus, its slug's first segment is the chosen space, it is in the chosen queue, and its text contains the search |
| Directory.FacetsArePartition | console/src/docs/wiki-data.ts:99-103 | facets have distinct values, sum to the corpus and stand by count, then name |
| Directory.FacetMeaning | console/src/docs/wiki-data.ts:99-103 | a facet's count is the number of documents in its space, and is never 0 |
| Directory.RailIsWhole | console/src/docs/wiki-data.ts:96-109 | the rail and the tab counts that a page returns are those of the whole corpus, whatever is narrowed and whichever page is asked for; a space is on the rail exactly when it has a document, with their number |
| Directory.CountsAgree | console/src/docs/wiki-data.ts:99-133 | opening any facet of the returned rail alone, or any queue tab alone, shows as many documents as its count says |
| Directory.PagesTile | console/src/docs/wiki-data.ts:120-126 | the pages one after the other are exactly the matching documents in corpus order |
| Directory.PageShown | console/src/docs/wiki-data.ts:120-132 | any requested page is clamped to a real one, is empty only when nothing matches, and shows the stretch that "showing a to b of total" names |
| PageTree.BuildSpaces | console/src/docs/tree.ts:84-103 | the gathering loop and the two sorts yield the tree's spaces |
| PageTree.SplitRejoins | console/src/docs/tree.ts:41-45 | a filed slug is its space, a slash and its leaf; any other is its own leaf under `unfiled` |
| PageTree.SameSearch | console/src/docs/tree.ts:73-76 | the text kept for the tree's search is the one that the directory's search looks through |
| PageTree.SpacesPartition | console/src/docs/tree.ts:84-97 | each page is in the space of its name and no other, names are distinct, pages stand by title with ties in corpus order, and sizes and queue counts sum to the totals |
| PageTree.SpacesInOrder | console/src/docs/tree.ts:98-102 | spaces stand by size, then name, with `unfiled` last whatever its size |
| PageTree.DirectoriesAgree | console/src/docs/tree.ts:41-103 | both directories show the same names and counts in the same order if and only if every slug has a name before its first slash, or is `unfiled`, and every other space is larger than the unfiled one, or as large and before it by name |
| PageTree.DirectoriesDiffer | console/src/docs/tree.ts:41-103 | a slug without a slash, one that starts with a slash, and a filed corpus with a large unfiled space: on each the two differ |
| PageTree.FiledCorporaAgree | console/src/docs/tree.ts:41-103 | they agree on every corpus in which all slugs are filed and no space is named `unfiled` |
| Navigation.DocWiki.Go | console/src/docs/DocWiki.tsx:107-159 | each navigation step writes a URL that shows what the reader chose, applied to what the URL showed before |
| Navigation.ShownByFirst | console/src/docs/wiki-data.ts:75-82 | a URL's view depends on the first values of four names, and an empty space is not the absence of one |
| Navigation.MoveShown | console/src/docs/DocWiki.tsx:119-159 | after a tab, space or search change the URL shows that change on page 0; after a page change, that page under the same filter |
| Navigation.MovedKeeps | console/src/docs/DocWiki.tsx:107-117 | every step goes to the docs module and keeps the parameters that are not the wiki's |
| Navigation.ViewExactly | console/src/docs/wiki-data.ts:75-82 | how the space, the tab, the search and the page of a URL are read: trimmed, floored, and never below 0 |
| Navigation.RunShown | console/src/docs/DocWiki.tsx:106-159 | after any run of steps from any URL, the URL shows the steps folded over what it showed |
| Navigation.Browse | console/src/docs/DocWiki.tsx:106-159 | one navigation after the other, each through the real query string: at the end the URL holds the parameters of the run and shows the steps folded over what it showed |
| Navigation.SpaceToggles | console/src/docs/DocWiki.tsx:125-129 | picking a space twice closes it, also the empty-named one |
| Navigation.RunOpens | console/src/docs/DocWiki.tsx:313-325 | after any run, the documents shown are the stretch of the chosen filter's matches that the "showing" line names |
| Session.ToHexInjective | console/src/lib/auth.ts:83-87 | different bytes print differently |
| Session.ToHexDigits | console/src/lib/auth.ts:83-87 | every byte is two lower-case digits, the high one first |
| Session.ConfiguredExactly | console/src/lib/auth.ts:61-64 | a passcode is configured if and only if something is left of it, trimmed |
| Session.FingerprintExactly | console/src/lib/auth.ts:124-126 | two passcodes have one fingerprint if and only if the digests of `brainiac-console:v1:` and the passcode share their first eight bytes |
| Session.TokenParts | console/src/lib/auth.ts:140-146 | a minted token splits at its dots into its four fields again |
| Session.SafeEqual | console/src/lib/auth.ts:149-154 | the accumulating loop is string equality |
| Session.IsValidSession | console/src/lib/auth.ts:163-185 | the chain of early exits accepts exactly the cookies with a signed payload, a finite age within bounds and the current fingerprint |
| Session.AcceptedExactly | console/src/lib/auth.ts:140-185 | whatever passcode and secret have become, a minted token is accepted if and only if the digests of old and new passcode share their first eight bytes, both keys give its payload the same digest and its age lies in [-60, 34560000] seconds |
| Session.SecretSigns | console/src/lib/auth.ts:93-107 | two deployments sign a payload alike if and only if their keys give it the same digest, the key being the trimmed secret whatever the passcode, or without a secret the passcode |
| Session.MintVerify | console/src/lib/auth.ts:140-185 | a token is accepted under the passcode and secret it was minted with if and only if its age lies in [-60, 34560000] seconds |
| Session.ExpiredStaysExpired | console/src/lib/auth.ts:178-182 | a token that was rejected for its age is rejected ever after |
| Session.RotationRejects | console/src/lib/auth.ts:121-126 | a passcode whose digest differs in the first eight bytes rejects every earlier token, at any time and under any secret |
| Session.TokensDiffer | console/src/lib/auth.ts:128-146 | tokens with different nonces differ |
| Session.AcceptedForm | console/src/lib/auth.ts:163-185 | a cookie is accepted if and only if it is a number of an age within bounds, something without a dot, the kept digest of the passcode and the signature of the three under the current key, between dots |
| Weekly.MergeWeeks | console/src/observatory/observatory-data.ts:81-91 | the two loops and the sort yield the joined series |
| Weekly.MergeIsOuterJoin | console/src/observatory/observatory-data.ts:81-91 | weeks strictly ascend, are exactly those of either series, and carry each series' count or 0 |
| Weekly.MergeConserves | console/src/observatory/observatory-data.ts:81-91 | when no series repeats a week, both column sums are conserved |
| Numbers.BitByBit | console/src/lib/seeded.ts:20-22 | the exclusive or and the or work bit by bit |
| Numbers.DecimalExactly | console/src/lib/auth.ts:141-144 | a number is printed by the digits that spell it, without a zero in front |
| Hash.Hash01 | console/src/lib/seeded.ts:19-26 | the loop computes the state on 32-bit words and scales it, the quotient rounded |
| Hash.PublishedValue | console/src/lib/seeded.ts:18-24 | for one input, the text "a" with salt 0, the state is the published FNV-1a value |
| Hash.StartExactly | console/src/lib/seeded.ts:20-20 | the first state is the offset, exclusive or the salt |
| Hash.TurnsAreBijection | console/src/lib/seeded.ts:21-24 | for every string of any length the final state is a bijection of the first |
| Hash.SaltInjective | console/src/lib/seeded.ts:19-26 | two salts give a string the same state if and only if they are the same 32-bit word |
| Hash.HashInRange | console/src/lib/seeded.ts:25-30 | the hash is the state modulo 10000 over 10000, rounded, in [0, 1); the integer is the floor of the rounded product, in [0, n), and its remainder never acts |
| Hash.PickIsMember | console/src/lib/seeded.ts:33-34 | picking from a non-empty list yields a member of it |
| Colour.LastAlphaWins | console/src/design/theme.ts:70-85 | for every string whatsoever, of two fades the last one counts |
| Colour.HexChannels | console/src/design/theme.ts:74-77 | a six-digit colour keeps red, green and blue, its pairs of digits |
| Colour.LongHex | console/src/design/theme.ts:74-77 | digits after the sixth are not read |
| Colour.MatchedExactly | console/src/design/theme.ts:79-80 | a colour function is hsl, hsla, rgb or rgba, in any letter case, and something without a closing bracket between its brackets |
| Colour.FunctionChannels | console/src/design/theme.ts:81-84 | a colour function keeps its first three parts, trimmed, under the name with an alpha; a missing one is written `undefined` |
| Colour.ShortHex | console/src/design/theme.ts:74-77 | a three-digit colour is its six-digit expansion |
| Colour.SoftReads | console/src/home/StationModules.tsx:71-71 | what is cut out of any text, brackets or none: from behind the first opening one up to the last closing one |
| Colour.SoftAgrees | console/src/home/StationModules.tsx:64-74 | on every string, if and only if: a `#` string agrees when it is a number, unless white space at the end makes exactly three characters of one of the two readings, when both must read 0; any other agrees when it is an hsl or hsla call, white space around it or not, or already such a fade |
| Colour.ShortReadings | console/src/design/theme.ts:74-77 | three characters, read as they are and read doubled, give the same channels if and only if both give 0 |
| Colour.SoftAgreesOn | console/src/home/StationModules.tsx:64-74 | in particular on trimmed hex numbers and on all hsl and hsla calls |
| Colour.SoftDiffers | console/src/home/StationModules.tsx:64-74 | on an rgb colour, on a `#` that is no number and on three digits before a space they differ |

## Left out

- React rendering, mermaid diagrams, section editing and the text matching of headings in `DocReader.tsx`: they decide nothing about numbers, blocks or counts.
- `absoluteAddress`, `isPublicSurface`, `int` and `oneOf` in `routes.ts`, `leafName` and `spaceLabel` in `tree.ts`: short branches without a partner to be proved against.
- The live server's paging, facets and search: their code is not part of this model; only the offline mirror is.
- The fallback to demonstration data and the field copies of `normalizeObservatory`, and all of `normalizeDemand`.
- The debounce timer of `onSearch` and the latency of the router: each navigation is one atomic step.
- The internals of SHA-256, HMAC, UTF-8, `localeCompare`, `toLowerCase` and `Number`: parameters with the laws stated above.
- Lone surrogates: strings are Unicode scalar values, so a position or a length differs from JavaScript's on characters beyond U+FFFF, notably `raw.length === 3` in the colour functions.
- Session.IsValidSession: the clock is given in whole seconds, as `Math.floor(Date.now() / 1000)` is, and two digests are not claimed to differ.
- Navigation.MoveShown: page numbers are unbounded; beyond 2^53 JavaScript no longer prints and reads them exactly.
- Hash.HashInRange: rounding is any function within the relative error of a double, so which of two neighbouring doubles is taken is not modelled, nor is a list longer than the largest double.
- Colour.LastAlphaWins: the alpha is given as already printed, by any text without comma, closing parenthesis and white space.
- Address.SameLink: the fragment and the origin of a link are not modelled; the query starts at the first question mark.
- Weekly.MergeWeeks and Directory.CountSpaces: the maps are their entries in insertion order, reassigned whole, so updating an entry in place is not visible as aliasing.
- InlineParser.ParseInline: the node list is a value that is reassigned, so the in-place merge of the last text node is `Push` on that value.
- Divergence scale, fixtures, legal pages and telemetry: no logic of the kind modelled here.
