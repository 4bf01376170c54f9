# TabLeaf bookmark page, modelled in Dafny

TabLeaf is a browser extension whose page, `tab.html`, opened from the
toolbar button, shows the user's bookmark tree. This project models the page's core logic in `script.js`:

- drawing the tree into a container (`renderBookmarks`);
- the search (`performSearch` with its recursive walk `searchBookmarks`);
- the highlighting of the term in result titles;
- the text escaping done by `escapeHtml`;
- the name of the file the export button downloads.

The project proves properties of that model.

Modules:

- `Seqs`: small sequence facts.
- `Text`: strings the page relies on.
  - ASCII `toLowerCase`.
  - ECMAScript `trim`, with its full WhiteSpace and LineTerminator set.
  - `includes`.
  - `escapeHtml` as the text-mode escaping of section 13.3 of the HTML Standard. It maps `&`, U+00A0, `<` and `>` to `&amp;`, `&nbsp;`, `&lt;` and `&gt;`.
- `Bookmarks`: the node record and the pre-order listing of a forest.
  - A node is a folder exactly when it has a `children` list.
  - Id `"0"` is the synthetic root.
  - A url is truthy when present and non-empty.
- `Search`:
  - the normalised term;
  - the pure specification `Found` of the walk;
  - the walk itself as a recursive method with a loop.
- `Highlight`:
  - highlighting as written, which matches inside the escaped title and which the page model uses;
  - a corrected highlighting, which matches in the title itself;
  - where each of them puts its spans;
  - the span-stripping and span-counting readers used to state what highlighting does.
- `Render`:
  - the container as a class whose `items` field the page clears, replaces and appends to;
  - the element values drawn;
  - `RenderBookmarks`, proved against the specification function `Rendered`.
- `SearchPage`: `PerformSearch`, proved against `SearchView`, and the link a result would get from the corrected highlighting.
- `Export`: the download name.

The browser's inputs become parameters:

- the loaded tree (`allBookmarks`);
- the search box's text;
- the date label that `toLocaleDateString` would give.

The page's elements are values, for example `Folder(name, content)` and `Bookmark(href, title)`. Their text fields hold the markup the page inserts, already escaped.

The page wraps each leftmost, non-overlapping, case-insensitive match of the escaped term in the escaped title; the regular expression at script.js:180 has the `g` and `i` flags. A match can start inside a character reference, so a span can split one, and an occurrence in the title itself can go unwrapped; see `## Findings`. The page model follows the code as written.

## Model

| member | source | states |
|---|---|---|
| `Text.Leading` | script.js:114 | the white space `trim` drops at the front is a white run, and the next character, if any, is not white |
| `Text.Trailing` | script.js:114 | the white space `trim` drops at the end is a white run, and the character before it, if any, is not white |
| `Text.TrimShape` | script.js:114 | `trim` leaves a contiguous piece of the input, with white space only on either side of it |
| `Text.TrimEdges` | script.js:114 | a trimmed string is empty or neither starts nor ends with white space |
| `Text.TrimEmptyIff` | script.js:114 | a string trims to nothing exactly when it is all white space |
| `Text.TrimIdempotent` | script.js:114 | trimming twice is trimming once |
| `Text.LowerIdempotent` | script.js:114 | lower-casing twice is lower-casing once |
| `Text.LowerConcat` | script.js:114 | lower-casing works character by character over a concatenation |
| `Text.LowerSlice` | script.js:137-138 | lower-casing a slice is slicing the lower-cased string |
| `Text.ContainsIff` | script.js:137-138 | `includes` holds exactly when the term occurs at some offset |
| `Text.EscapeConcat` | script.js:200-204 | escaping works piece by piece over a concatenation |
| `Text.EscapePlain` | script.js:200-204 | text without `&`, no-break space, `<` or `>` escapes to itself |
| `Text.LowerEscape` | script.js:179-181 | lower-casing and escaping can be done in either order |
| `Text.EscapeKeepsContains` | script.js:179-181 | when a text contains a term, its escaped form contains the escaped term |
| `Text.EscapeHasNoAngles` | script.js:200-204 | escaped text holds no `<` and no `>` |
| `Text.UnescapeEscape` | script.js:200-204 | reading the four character references back restores the original text, so escaping loses nothing |
| `Search.Normalise` | script.js:114 | the term is lower-case, and it is empty exactly when the query is all white space |
| `Search.Found` | script.js:126-144 | everything the walk pushes is a hit: a node without `children`, with a truthy url, whose lower-cased title or url contains the term |
| `Search.FoundConcat` | script.js:129-143 | the walk over two lists in a row pushes the first list's hits, then the second's |
| `Search.FoundIsPreorderFiltered` | script.js:126-144 | the results are exactly the hits of the tree's pre-order listing, in that order |
| `Search.FoundExactly` | script.js:129-142 | a node is in the results if and only if it is in the tree and is a hit; folders are never results, a node with neither children nor url never is |
| `Search.RootSearchedThrough` | script.js:129-133 | the walk does not skip the root: a root folder contributes its whole subtree's hits, between its siblings' hits |
| `Search.StepOfWalk` | script.js:129-143 | handling one node appends exactly that node's contribution to the results so far |
| `Search.SearchBookmarks` | script.js:126-147 | the recursive forEach walk appends `Found(nodes, term)` to the results it was given |
| `Highlight.SameIgnoringCaseIff` | script.js:180 | the `i` flag's comparison agrees with comparing the lower-cased strings |
| `Highlight.OccurrencesPositiveIff` | script.js:179-181 | the scan finds at least one match exactly when the lower-cased text contains the lower-cased pattern |
| `Highlight.StripWrapMatches` | script.js:180-181 | the as-written replacement, tags removed, gives back the text it ran on |
| `Highlight.CountWrapMatches` | script.js:180-181 | the as-written replacement opens one span per leftmost non-overlapping match |
| `Highlight.WrapMatchesSkip` | script.js:180-181 | where no match starts before an offset, the as-written replacement keeps the text up to that offset unchanged |
| `Highlight.WrapMatchesAt` | script.js:180-181 | when the first match starts at offset `i`, the as-written replacement keeps the text before it, wraps the matched piece with its original case in one span, and goes on after the match |
| `Highlight.WrapMatchesNone` | script.js:180-181 | without any match, the as-written replacement leaves the text unchanged |
| `Highlight.HighlightAsWrittenCounts` | script.js:178-182 | the as-written highlighting opens one span per match of the escaped term in the escaped title, and opens spans exactly when the lower-cased title contains the term |
| `Highlight.HighlightAsWrittenKeepsTitle` | script.js:178-182 | the as-written highlighting, tags removed, is the escaped title |
| `Highlight.AsWrittenHighlightsInsideEntity` | script.js:178-182 | for title "Q&A" and term "a" the as-written highlighting opens two spans, though the title holds the term once; title "<t;t", term "t;t": the escaped title "&lt;t;t" gets its one span on the "t;t" starting inside `&lt;`, and the title's own occurrence is not wrapped (`Highlight.AsWrittenMissesOccurrence`) |
| `Highlight.AsWrittenMissesOccurrence` | script.js:178-182 | for title "<t;t" and term "t;t" the as-written highlighting wraps the "t;t" that starts inside "&lt;" and leaves the title's own occurrence unwrapped |
| `Highlight.StripWrapMatchesEscaped` | script.js:178-182 | the corrected replacement, tags removed, is the escaped title |
| `Highlight.CountWrapMatchesEscaped` | script.js:178-182 | the corrected replacement opens one span per match in the title itself |
| `Highlight.WrapMatchesEscapedSkip` | script.js:178-182 | where no match starts before an offset, the corrected highlighting escapes the title up to that offset and goes on from there |
| `Highlight.WrapMatchesEscapedAt` | script.js:178-182 | when the first match in the title starts at offset `i`, the corrected highlighting escapes the text before it, wraps the escaped match in one span, and goes on after the match |
| `Highlight.WrapMatchesEscapedNone` | script.js:178-182 | without any match, the corrected highlighting is the escaped title |
| `Highlight.HighlightKeepsTitle` | script.js:178-182 | a highlighted title, tags removed, is the escaped title, so every match keeps its original case |
| `Highlight.HighlightCountsOccurrences` | script.js:178-182 | the highlighted title has one span per occurrence of the term in the title, and has spans exactly when the lower-cased title contains the term |
| `Render.Container.Clear` | script.js:39 | `innerHTML = ''` empties the container |
| `Render.Container.Show` | script.js:42 | setting `innerHTML` to one element's markup leaves that element alone |
| `Render.Container.Append` | script.js:87 | `appendChild` adds one element at the end |
| `Render.RenderBookmarks` | script.js:37-108 | after a call the container holds `Rendered(nodes)`, whatever it held before |
| `Render.RenderAllConcat` | script.js:47-107 | the forEach over two lists in a row handles the first list, then the second |
| `Render.PlaceholderIffEmpty` | script.js:39-44 | the container holds the no-bookmarks placeholder exactly when the list was missing or empty |
| `Render.OnlyTreeElementsDrawn` | script.js:47-107 | drawing a list adds only folder and link elements, never the placeholder |
| `Render.RootFreeListDrawnInOrder` | script.js:56-106 | a list without a root draws one element per node, in order, after what the container held |
| `Render.RootDropsEarlierSiblings` | script.js:49-53 | a root with children clears the container: earlier siblings are lost and its children are drawn from empty |
| `Render.ChildlessRootVanishes` | script.js:49-54 | a root without children, or with an empty list, contributes nothing |
| `Render.FolderHoldsItsChildren` | script.js:58-87 | a non-root folder is one folder element with its escaped name and the rendering of its children; an empty folder holds nothing, not the placeholder |
| `Render.LinksFollowPreorder` | script.js:47-107 | in a forest without a root, the drawn tree holds exactly one link per bookmark, in pre-order |
| `Render.LoadedTreeLinks` | script.js:47-107 | for the loaded tree, one root folder with no root below it, the page holds exactly one link per bookmark of the tree, in pre-order |
| `SearchPage.PerformSearch` | script.js:113-193 | after a search the tree area holds `SearchView(query, allBookmarks)` |
| `SearchPage.BlankQueryShowsTree` | script.js:114-120 | the full tree is shown again exactly when the query is blank after trimming |
| `SearchPage.NoMatchesIffNoHit` | script.js:150-155 | for a non-blank query the no-match message appears exactly when no node of the tree is a hit |
| `SearchPage.ResultsShowEachMatch` | script.js:157-192 | each match gets one link, in walk order, at its url; the link's title strips back to the escaped title and has one span per match of the escaped term (details below) |
| `SearchPage.CorrectedLinkShowsEachOccurrence` | script.js:167-189 | with the corrected highlighting, a result's link points at its url, strips back to the escaped title, and has one span per occurrence of the term in the title |
| `Export.ReplaceSlashes` | script.js:277 | the result has the input's length; each slash becomes a dash and every other character is kept |
| `Export.DownloadNameShape` | script.js:277 | the name is the prefix, a slash-free date part as long as the label, and `.html` |
| `Export.SlashFreeLabelKept` | script.js:277 | a label without slashes appears unchanged in the name |
| `Export.ReplaceSlashesIdempotent` | script.js:277 | replacing slashes twice is replacing them once |
| `Export.DownloadNameDistinguishes` | script.js:277 | labels that differ at a position without slash or dash give different names |

`SearchPage.ResultsShowEachMatch` states that, with matches:

- the header counts them;
- there is one link per match, in walk order, pointing at its truthy url;
- each link's title, tags removed, is the escaped title;
- a link's title has one highlight per match of the escaped term in the escaped title;
- so it has a highlight exactly when the title itself contains the term.

## Left out

- Loading the tree is not modelled: `chrome.bookmarks.getTree`, the DOMContentLoaded handler and the click and Enter-key wiring (script.js:13-30). The tree and the search box's text are parameters.
- The favicon address (script.js:98, 175) is not modelled. `new URL(node.url)` throws for a bookmark without a valid url, which would stop the rendering part-way. The model assumes it succeeds.
- The folder header's collapse toggle (script.js:71-73) is not modelled.
- Markup details are not modelled: class names, icons, the `target` and `rel` attributes and the message texts. Each element kind is one constructor.
- Drawn elements are values, so DOM node identity is not modelled. A folder's content is the state of its content container when it is appended. Nothing changes it afterwards.
- `exportPage` is modelled only through its download name: the page template, the SVG icon replacement, the Blob, the click on the link and the `setTimeout` clean-up (script.js:209-288) are left out. `toLocaleDateString` becomes the `dateLabel` parameter.
- `getStyleContent` (script.js:294-315) and `clearSearch` (script.js:320-323) are not modelled.
- `Search.SearchBookmarks`: it does not model the `if (!nodes) return;` guard (script.js:127). The tree is always a list, and a node's children are either absent or a list.
- `Text.Lower`: it does not model full Unicode case mapping; only A-Z are lower-cased.
- `Highlight.HighlightAsWritten`: it does not model terms with regular-expression metacharacters. The pattern is taken as literal text, while the page would build a different regular expression, or one that throws.
- `Highlight.HighlightTitle` and `Highlight.HighlightAsWritten` require a non-empty term. The page reaches highlighting only after returning early on an empty term (script.js:116-120).
- `background.js` is not part of this model.

## Findings

| source | as written | input that shows it | evidently intended | confidence | as-written member | corrected member |
|---|---|---|---|---|---|---|
| script.js:178-182 | the highlight pattern, built from the escaped term, is run with the `gi` flags over the already escaped title | title "Q&A", term "a": the escaped title "Q&amp;A" gets two spans, one splitting the character reference `&amp;`, though the title holds the term once; title "<t;t", term "t;t": the escaped title "&lt;t;t" gets its one span on the "t;t" starting inside `&lt;`, and the title's own occurrence is not wrapped (`Highlight.AsWrittenMissesOccurrence`) | spans that wrap exactly the occurrences of the term in the title, with every piece escaped | not executed | `Highlight.AsWrittenHighlightsInsideEntity` | `Highlight.HighlightCountsOccurrences` |

The page model (`SearchPage.ResultLink`, `SearchPage.PerformSearch`) draws the highlighting as written. `SearchPage.CorrectedResultLink` is the link with the corrected highlighting, and `SearchPage.CorrectedLinkShowsEachOccurrence` states what it shows.
