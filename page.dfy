/**
 * `performSearch`: a blank query shows the whole tree again; otherwise the
 * tree area is replaced by the number of matches and one link per match,
 * with the term highlighted in each title, or by a message when nothing
 * matches.
 */
module SearchPage {
  import opened Text
  import opened Bookmarks
  import opened Search
  import opened Highlight
  import opened Render

  /** The link drawn for one search result, with the title highlighted as the page does it. */
  function ResultLink(n: Node, term: string): Element
    requires term != []
  {
    Bookmark(n.url, HighlightAsWritten(n.title, term))
  }

  /** The link one search result would get from the corrected highlighting. */
  function CorrectedResultLink(n: Node, term: string): Element
    requires term != []
  {
    Bookmark(n.url, HighlightTitle(n.title, term))
  }

  function ResultLinks(rs: seq<Node>, term: string): seq<Element>
    requires term != []
  {
    seq(|rs|, i requires 0 <= i < |rs| => ResultLink(rs[i], term))
  }

  lemma ResultLinksSnoc(rs: seq<Node>, i: nat, term: string)
    requires term != [] && i < |rs|
    ensures ResultLinks(rs[..i + 1], term) == ResultLinks(rs[..i], term) + [ResultLink(rs[i], term)]
  {
  }

  /** The tree area after `performSearch` with the search box holding `query`. */
  function SearchView(query: string, allBookmarks: seq<Node>): seq<Element>
  {
    var term := Normalise(query);
    if term == [] then Rendered(Some(allBookmarks))
    else
      var results := Found(allBookmarks, term);
      if results == [] then [NoMatches(Escape(term))]
      else [ResultsHeader(|results|), Results(ResultLinks(results, term))]
  }

  /** `performSearch()`, reading the search box and the loaded tree, drawing into the tree area. */
  method PerformSearch(query: string, allBookmarks: seq<Node>, tree: Container)
    modifies tree
    ensures tree.items == SearchView(query, allBookmarks)
  {
    var term := Normalise(query);
    if term == [] {
      RenderBookmarks(Some(allBookmarks), tree);
      return;
    }
    var results := SearchBookmarks(allBookmarks, term, []);
    assert results == Found(allBookmarks, term);
    tree.Clear();
    if |results| == 0 {
      tree.Show(NoMatches(Escape(term)));
      return;
    }
    tree.Append(ResultsHeader(|results|));
    assert tree.items == [ResultsHeader(|results|)];
    var list := new Container();
    for i := 0 to |results|
      invariant tree.items == [ResultsHeader(|results|)]
      invariant list.items == ResultLinks(results[..i], term)
    {
      ResultLinksSnoc(results, i, term);
      var bookmark := results[i];
      var highlighted := HighlightAsWritten(bookmark.title, term);
      list.Append(Bookmark(bookmark.url, highlighted));
    }
    assert results[..|results|] == results;
    tree.Append(Results(list.items));
    assert tree.items == [ResultsHeader(|results|), Results(ResultLinks(results, term))];
  }

  // ---------------------------------------------------------------------
  // Properties of the search view
  // ---------------------------------------------------------------------

  /** The whole tree is shown again exactly when the query is blank after trimming. */
  lemma BlankQueryShowsTree(query: string, allBookmarks: seq<Node>)
    ensures SearchView(query, allBookmarks) == Rendered(Some(allBookmarks)) <==> AllWhite(query)
  {
    var view := SearchView(query, allBookmarks);
    if !AllWhite(query) {
      if allBookmarks != [] {
        OnlyTreeElementsDrawn([], allBookmarks);
      }
      assert view[0] in view;
      assert !view[0].Folder? && !view[0].Bookmark? && !view[0].NoBookmarks?;
      assert view[0] in Rendered(Some(allBookmarks)) ==> view != Rendered(Some(allBookmarks));
    }
  }

  /** For a non-blank query, the "nothing matches" message is shown exactly when no bookmark of the tree is a hit. */
  lemma NoMatchesIffNoHit(query: string, allBookmarks: seq<Node>)
    requires !AllWhite(query)
    ensures SearchView(query, allBookmarks) == [NoMatches(Escape(Normalise(query)))]
        <==> forall x :: x in Preorder(allBookmarks) ==> !IsHit(x, Normalise(query))
  {
    var term := Normalise(query);
    var results := Found(allBookmarks, term);
    if results == [] {
      forall x | x in Preorder(allBookmarks)
        ensures !IsHit(x, term)
      {
        FoundExactly(allBookmarks, term, x);
      }
    } else {
      FoundExactly(allBookmarks, term, results[0]);
      assert results[0] in results;
    }
  }

  /**
   * For a non-blank query with matches, the view is the header with the
   * number of matches and one link per match, in the order the walk found
   * them. Each link points at its bookmark's (truthy) url. Its title,
   * without the highlight tags, is the escaped title. It has one highlight
   * per match of the escaped term in the escaped title, and so has one
   * exactly when the title itself contains the term.
   */
  lemma ResultsShowEachMatch(query: string, allBookmarks: seq<Node>, i: nat)
    requires !AllWhite(query)
    requires i < |Found(allBookmarks, Normalise(query))|
    ensures var term := Normalise(query);
      var results := Found(allBookmarks, term);
      var view := SearchView(query, allBookmarks);
      && |view| == 2 && view[0] == ResultsHeader(|results|)
      && view[1] == Results(view[1].items)
      && |view[1].items| == |results|
      && view[1].items[i].href == results[i].url
      && results[i].url.Some? && results[i].url.value != ""
      && StripSpans(view[1].items[i].title) == Escape(results[i].title)
      && CountSpans(view[1].items[i].title)
         == (if Contains(Lower(results[i].title), term) then Occurrences(Escape(results[i].title), Escape(term)) else 0)
      && (CountSpans(view[1].items[i].title) > 0 <==> Contains(Lower(results[i].title), term))
  {
    var term := Normalise(query);
    var results := Found(allBookmarks, term);
    assert results[i] in results;
    HighlightAsWrittenKeepsTitle(results[i].title, term);
    HighlightAsWrittenCounts(results[i].title, term);
  }

  /**
   * With the corrected highlighting, a result's link keeps its escaped
   * title and has one highlight per occurrence of the term in the title.
   */
  lemma CorrectedLinkShowsEachOccurrence(n: Node, query: string)
    requires !AllWhite(query)
    ensures var term := Normalise(query);
      var link := CorrectedResultLink(n, term);
      && link.href == n.url
      && StripSpans(link.title) == Escape(n.title)
      && CountSpans(link.title) == Occurrences(n.title, term)
      && (CountSpans(link.title) > 0 <==> Contains(Lower(n.title), term))
  {
    var term := Normalise(query);
    HighlightKeepsTitle(n.title, term);
    HighlightCountsOccurrences(n.title, term);
  }
}
