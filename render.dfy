/**
 * The bookmark tree as the page draws it: `renderBookmarks` clears a
 * container and fills it with one element per node, a folder element
 * holding the rendering of its children and a link per bookmark. The
 * synthetic root is not drawn; its children are rendered into the same
 * container instead.
 */
module Render {
  import opened Seqs
  import opened Text
  import opened Bookmarks

  /**
   * What the page puts into a container. Text fields hold markup: titles
   * and the search term are already escaped.
   */
  datatype Element =
    | NoBookmarks                               // the "no bookmarks found" placeholder
    | Folder(name: string, content: seq<Element>) // folder header with its name, then the folder-content element
    | Bookmark(href: Option<string>, title: string) // a link opening `href` in a new tab
    | NoMatches(term: string)                   // the "nothing matches" message naming the term
    | ResultsHeader(count: nat)                 // the heading that gives the number of matches
    | Results(items: seq<Element>)              // the search-results element

  /** A DOM element whose children the page replaces or appends to. */
  class Container {
    var items: seq<Element>

    constructor()
      ensures items == []
    {
      items := [];
    }

    /** `innerHTML = ''`. */
    method Clear()
      modifies this
      ensures items == []
    {
      items := [];
    }

    /** `innerHTML = <markup of one element>`: the container holds that element only. */
    method Show(e: Element)
      modifies this
      ensures items == [e]
    {
      items := [e];
    }

    /** `appendChild`. */
    method Append(e: Element)
      modifies this
      ensures items == old(items) + [e]
    {
      items := items + [e];
    }
  }

  // ---------------------------------------------------------------------
  // What renderBookmarks leaves in its container
  // ---------------------------------------------------------------------

  /** The container after `renderBookmarks(nodes, container)`, whatever it held before. */
  function Rendered(nodes: Option<seq<Node>>): seq<Element>
  {
    if nodes.None? || nodes.value == [] then [NoBookmarks] else RenderAll([], nodes.value)
  }

  /**
   * The container after the forEach has handled every node of `ns`,
   * starting from `acc`.
   */
  function RenderAll(acc: seq<Element>, ns: seq<Node>): seq<Element>
    decreases ns, 0
  {
    if ns == [] then acc else RenderNode(RenderAll(acc, ns[..|ns| - 1]), ns[|ns| - 1])
  }

  /**
   * One step of the forEach. A root with children re-renders them into the
   * same container, which clears it first; a root without children leaves
   * the container as it is. Every other node appends one element.
   */
  function RenderNode(acc: seq<Element>, n: Node): seq<Element>
    decreases n, 1
  {
    if IsRoot(n) then
      if n.children.Present? && n.children.nodes != [] then RenderAll([], n.children.nodes) else acc
    else
      acc + [ElementOf(n)]
  }

  /** The element drawn for a node that is not the root. */
  function ElementOf(n: Node): Element
    decreases n, 0
  {
    match n.children
    case Present(c) => Folder(Escape(n.title), RenderAll([], c))
    case Absent => LinkOf(n)
  }

  /** The link drawn for a bookmark: its url as the target, its escaped title as the text. */
  function LinkOf(n: Node): Element
  {
    Bookmark(n.url, Escape(n.title))
  }

  /** `renderBookmarks(bookmarkNodes, container)`. */
  method RenderBookmarks(nodes: Option<seq<Node>>, container: Container)
    modifies container
    ensures container.items == Rendered(nodes)
    decreases if nodes.Some? then nodes.value else []
  {
    container.Clear();
    if nodes.None? || |nodes.value| == 0 {
      container.Show(NoBookmarks);
      return;
    }
    var ns := nodes.value;
    for i := 0 to |ns|
      invariant container.items == RenderAll([], ns[..i])
    {
      var node := ns[i];
      ghost var before := container.items;
      PrefixSnoc(ns, i);
      assert ns[..i + 1][..i] == ns[..i];
      assert RenderAll([], ns[..i + 1]) == RenderNode(before, node);
      if node.id == "0" {
        if node.children.Present? && |node.children.nodes| > 0 {
          RenderBookmarks(Some(node.children.nodes), container);
        }
      } else if node.children.Present? {
        var content := new Container();
        if |node.children.nodes| > 0 {
          RenderBookmarks(Some(node.children.nodes), content);
        }
        container.Append(Folder(Escape(node.title), content.items));
        assert container.items == RenderNode(before, node);
      } else {
        container.Append(LinkOf(node));
        assert container.items == RenderNode(before, node);
      }
    }
    TakeAll(ns);
  }

  // ---------------------------------------------------------------------
  // Properties of the rendering
  // ---------------------------------------------------------------------

  /** Handling a list in two parts is handling the first part, then the second. */
  lemma {:induction false} RenderAllConcat(acc: seq<Element>, a: seq<Node>, b: seq<Node>)
    ensures RenderAll(acc, a + b) == RenderAll(RenderAll(acc, a), b)
    decreases |b|
  {
    if b == [] {
      ConcatNil(a);
    } else {
      var ab := a + b;
      assert ab[..|ab| - 1] == a + b[..|b| - 1];
      assert ab[|ab| - 1] == b[|b| - 1];
      RenderAllConcat(acc, a, b[..|b| - 1]);
    }
  }

  lemma RenderOne(acc: seq<Element>, n: Node)
    ensures RenderAll(acc, [n]) == RenderNode(acc, n)
  {
    assert [n][..0] == [];
  }

  /** Elements `renderBookmarks` draws for nodes: folders and links. */
  predicate TreeElements(es: seq<Element>)
  {
    forall e :: e in es ==> e.Folder? || e.Bookmark?
  }

  /** Drawing a list adds nothing but folders and links, so never the placeholder. */
  lemma {:induction false} OnlyTreeElementsDrawn(acc: seq<Element>, ns: seq<Node>)
    requires TreeElements(acc)
    ensures TreeElements(RenderAll(acc, ns))
    decreases ns, 0
  {
    if ns != [] {
      OnlyTreeElementsDrawn(acc, ns[..|ns| - 1]);
      OnlyTreeElementsInStep(RenderAll(acc, ns[..|ns| - 1]), ns[|ns| - 1]);
    }
  }

  lemma {:induction false} OnlyTreeElementsInStep(acc: seq<Element>, n: Node)
    requires TreeElements(acc)
    ensures TreeElements(RenderNode(acc, n))
    decreases n, 1
  {
    if IsRoot(n) && n.children.Present? && n.children.nodes != [] {
      OnlyTreeElementsDrawn([], n.children.nodes);
    }
  }

  /**
   * The container holds the placeholder exactly when the list was missing
   * or empty, whatever it held before the call.
   */
  lemma PlaceholderIffEmpty(nodes: Option<seq<Node>>)
    ensures Rendered(nodes) == [NoBookmarks] <==> nodes.None? || nodes.value == []
  {
    if nodes.Some? && nodes.value != [] {
      OnlyTreeElementsDrawn([], nodes.value);
      assert NoBookmarks !in Rendered(nodes);
    }
  }

  /**
   * Without a root among them, the nodes of a list are drawn one element
   * each, in order, after what the container already held.
   */
  lemma {:induction false} RootFreeListDrawnInOrder(acc: seq<Element>, ns: seq<Node>)
    requires forall i :: 0 <= i < |ns| ==> !IsRoot(ns[i])
    ensures |RenderAll(acc, ns)| == |acc| + |ns|
    ensures RenderAll(acc, ns)[..|acc|] == acc
    ensures forall i :: 0 <= i < |ns| ==> RenderAll(acc, ns)[|acc| + i] == ElementOf(ns[i])
  {
    if ns != [] {
      var init := ns[..|ns| - 1];
      RootFreeListDrawnInOrder(acc, init);
      var r := RenderAll(acc, init);
      assert RenderAll(acc, ns) == r + [ElementOf(ns[|ns| - 1])];
      assert forall i :: 0 <= i < |init| ==> init[i] == ns[i];
    }
  }

  /**
   * A root with children clears the container: whatever came before it in
   * the list is lost, and its children are drawn from an empty container.
   */
  lemma RootDropsEarlierSiblings(acc: seq<Element>, pre: seq<Node>, root: Node, post: seq<Node>)
    requires IsRoot(root) && IsFolder(root) && root.children.nodes != []
    ensures RenderAll(acc, pre + [root] + post) == RenderAll(RenderAll([], root.children.nodes), post)
  {
    RenderAllConcat(acc, pre + [root], post);
    RenderAllConcat(acc, pre, [root]);
    RenderOne(RenderAll(acc, pre), root);
  }

  /** A root without children (or with an empty list) contributes nothing. */
  lemma ChildlessRootVanishes(acc: seq<Element>, pre: seq<Node>, root: Node, post: seq<Node>)
    requires IsRoot(root) && (!IsFolder(root) || root.children.nodes == [])
    ensures RenderAll(acc, pre + [root] + post) == RenderAll(acc, pre + post)
  {
    RenderAllConcat(acc, pre + [root], post);
    RenderAllConcat(acc, pre, [root]);
    RenderOne(RenderAll(acc, pre), root);
    RenderAllConcat(acc, pre, post);
  }

  /**
   * A folder other than the root is drawn as one folder element holding
   * the rendering of its children; an empty folder holds nothing, not the
   * placeholder.
   */
  lemma FolderHoldsItsChildren(n: Node)
    requires !IsRoot(n) && IsFolder(n)
    ensures RenderNode([], n) == [ElementOf(n)]
    ensures ElementOf(n).Folder? && ElementOf(n).name == Escape(n.title)
    ensures ElementOf(n).content == if n.children.nodes == [] then [] else Rendered(Some(n.children.nodes))
  {
  }

  // ---------------------------------------------------------------------
  // The links of a drawn tree
  // ---------------------------------------------------------------------

  /** Every link of some drawn elements, reading folder contents in place. */
  function Links(es: seq<Element>): seq<Element>
  {
    if es == [] then [] else LinksIn(es[0]) + Links(es[1..])
  }

  function LinksIn(e: Element): seq<Element>
  {
    match e
    case Folder(_, content) => Links(content)
    case Bookmark(_, _) => [e]
    case _ => []
  }

  lemma {:induction false} LinksConcat(a: seq<Element>, b: seq<Element>)
    ensures Links(a + b) == Links(a) + Links(b)
  {
    if a == [] {
      ConcatEmpty(a, b);
    } else {
      ConcatFront(a, b);
      LinksConcat(a[1..], b);
      ConcatAssoc(LinksIn(a[0]), Links(a[1..]), Links(b));
    }
  }

  /** The links a flat list of nodes should give: one per bookmark, in list order. */
  function LeafLinks(flat: seq<Node>): seq<Element>
  {
    if flat == [] then [] else (if IsFolder(flat[0]) then [] else [LinkOf(flat[0])]) + LeafLinks(flat[1..])
  }

  lemma {:induction false} LeafLinksConcat(a: seq<Node>, b: seq<Node>)
    ensures LeafLinks(a + b) == LeafLinks(a) + LeafLinks(b)
  {
    if a == [] {
      ConcatEmpty(a, b);
    } else {
      ConcatFront(a, b);
      LeafLinksConcat(a[1..], b);
      ConcatAssoc(if IsFolder(a[0]) then [] else [LinkOf(a[0])], LeafLinks(a[1..]), LeafLinks(b));
    }
  }

  /** No node anywhere in the forest carries the root's id. */
  predicate RootFree(ns: seq<Node>)
  {
    forall x :: x in Preorder(ns) ==> !IsRoot(x)
  }

  /**
   * In a forest without a root, the drawn tree holds exactly one link per
   * bookmark, in the pre-order of the forest: every bookmark is drawn once
   * and in place, and no folder is drawn as a link.
   */
  lemma {:induction false} LinksFollowPreorder(ns: seq<Node>)
    requires RootFree(ns)
    ensures Links(RenderAll([], ns)) == LeafLinks(Preorder(ns))
    decreases ns, 0
  {
    if ns != [] {
      var init, last := ns[..|ns| - 1], ns[|ns| - 1];
      assert ns == init + [last];
      PreorderConcat(init, [last]);
      assert Preorder([last]) == Subtree(last) + Preorder([]);
      assert Preorder(init) + Subtree(last) == Preorder(ns);
      LinksFollowPreorder(init);
      LinksOfElement(last);
      LinksConcat(RenderAll([], init), [ElementOf(last)]);
      assert Links([ElementOf(last)]) == LinksIn(ElementOf(last)) + Links([]);
      LeafLinksConcat(Preorder(init), Subtree(last));
    }
  }

  /**
   * The tree the browser loads is one root folder. When nothing below it
   * is another root, the drawn page holds exactly one link per bookmark
   * of the tree, in pre-order.
   */
  lemma LoadedTreeLinks(root: Node)
    requires IsRoot(root) && IsFolder(root) && root.children.nodes != []
    requires RootFree(root.children.nodes)
    ensures Links(Rendered(Some([root]))) == LeafLinks(Preorder([root]))
  {
    var c := root.children.nodes;
    RootDropsEarlierSiblings([], [], root, []);
    assert [] + [root] + [] == [root];
    LinksFollowPreorder(c);
    assert Preorder([root]) == [root] + Preorder(c) + Preorder([]);
    assert Preorder([root]) == [root] + Preorder(c);
    LeafLinksConcat([root], Preorder(c));
    assert LeafLinks([root]) == [] + LeafLinks([]);
  }

  lemma {:induction false} LinksOfElement(n: Node)
    requires forall x :: x in Subtree(n) ==> !IsRoot(x)
    ensures LinksIn(ElementOf(n)) == LeafLinks(Subtree(n))
    decreases n, 1
  {
    match n.children
    case Absent =>
      assert Subtree(n) == [n];
      assert LeafLinks([n]) == [LinkOf(n)] + LeafLinks([]);
    case Present(c) =>
      assert Subtree(n) == [n] + Preorder(c);
      LinksFollowPreorder(c);
      LeafLinksConcat([n], Preorder(c));
      assert LeafLinks([n]) == [] + LeafLinks([]);
  }
}
