/**
 * The search filter of the bookmark page: the query is normalised, then a
 * depth-first walk over the whole tree collects the bookmarks whose title
 * or url contains it.
 */
module Search {
  import opened Seqs
  import opened Text
  import opened Bookmarks

  /** `searchInput.value.trim().toLowerCase()`. */
  function Normalise(query: string): (term: string)
    ensures Lower(term) == term
    ensures term == [] <==> AllWhite(query)
  {
    LowerIdempotent(Trim(query));
    TrimEmptyIff(query);
    Lower(Trim(query))
  }

  /**
   * A node the walk puts into the results: it has no `children` list, a
   * truthy url, and its lower-cased title or lower-cased url contains the
   * term.
   */
  predicate IsHit(n: Node, term: string)
  {
    && !IsFolder(n)
    && HasTruthyUrl(n)
    && (Contains(Lower(n.title), term) || Contains(Lower(n.url.value), term))
  }

  /** The nodes `searchBookmarks(nodes)` pushes onto `searchResults`, in push order. */
  function Found(ns: seq<Node>, term: string): (r: seq<Node>)
    ensures forall x :: x in r ==> IsHit(x, term)
  {
    if ns == [] then [] else FoundIn(ns[0], term) + Found(ns[1..], term)
  }

  /** What one node contributes: a folder is always descended into, a bookmark is tested. */
  function FoundIn(n: Node, term: string): (r: seq<Node>)
    ensures forall x :: x in r ==> IsHit(x, term)
  {
    match n.children
    case Present(c) => Found(c, term)
    case Absent => if IsHit(n, term) then [n] else []
  }

  /** The hits of a flat list, in list order: the reference the walk is compared with. */
  function Hits(flat: seq<Node>, term: string): seq<Node>
  {
    if flat == [] then []
    else (if IsHit(flat[0], term) then [flat[0]] else []) + Hits(flat[1..], term)
  }

  lemma {:induction false} HitsConcat(a: seq<Node>, b: seq<Node>, term: string)
    ensures Hits(a + b, term) == Hits(a, term) + Hits(b, term)
  {
    if a == [] {
      ConcatEmpty(a, b);
      ConcatEmpty(Hits(a, term), Hits(b, term));
    } else {
      ConcatFront(a, b);
      HitsConcat(a[1..], b, term);
      ConcatAssoc(if IsHit(a[0], term) then [a[0]] else [], Hits(a[1..], term), Hits(b, term));
    }
  }

  lemma {:induction false} HitsMembership(flat: seq<Node>, term: string, x: Node)
    ensures x in Hits(flat, term) <==> x in flat && IsHit(x, term)
  {
    if flat != [] {
      HitsMembership(flat[1..], term, x);
      HeadTail(flat);
    }
  }

  lemma {:induction false} FoundConcat(a: seq<Node>, b: seq<Node>, term: string)
    ensures Found(a + b, term) == Found(a, term) + Found(b, term)
  {
    if a == [] {
      ConcatEmpty(a, b);
      ConcatEmpty(Found(a, term), Found(b, term));
    } else {
      ConcatFront(a, b);
      FoundConcat(a[1..], b, term);
      ConcatAssoc(FoundIn(a[0], term), Found(a[1..], term), Found(b, term));
    }
  }

  lemma FoundOne(n: Node, term: string)
    ensures Found([n], term) == FoundIn(n, term)
  {
    assert Found([n], term) == FoundIn(n, term) + Found([], term);
    ConcatNil(FoundIn(n, term));
  }

  /**
   * The walk is a filter of the pre-order listing of the tree: results come
   * in pre-order, children in their original order, and a node is there
   * exactly when it is a hit.
   */
  lemma {:induction false} FoundIsPreorderFiltered(ns: seq<Node>, term: string)
    ensures Found(ns, term) == Hits(Preorder(ns), term)
  {
    if ns != [] {
      FoundInIsSubtreeFiltered(ns[0], term);
      FoundIsPreorderFiltered(ns[1..], term);
      HitsConcat(Subtree(ns[0]), Preorder(ns[1..]), term);
    }
  }

  lemma {:induction false} FoundInIsSubtreeFiltered(n: Node, term: string)
    ensures FoundIn(n, term) == Hits(Subtree(n), term)
  {
    match n.children
    case Absent =>
      assert Subtree(n) == [n];
      assert Hits(Subtree(n), term) == (if IsHit(n, term) then [n] else []) + Hits([], term);
    case Present(c) =>
      FoundIsPreorderFiltered(c, term);
      assert !IsHit(n, term);
      assert Subtree(n)[0] == n && Subtree(n)[1..] == Preorder(c);
  }

  /** A node is in the results if and only if it sits somewhere in the tree and is a hit. */
  lemma FoundExactly(ns: seq<Node>, term: string, x: Node)
    ensures x in Found(ns, term) <==> x in Preorder(ns) && IsHit(x, term)
  {
    FoundIsPreorderFiltered(ns, term);
    HitsMembership(Preorder(ns), term, x);
  }

  /**
   * The walk does not skip the synthetic root: a root folder at the top
   * level contributes the results of its whole subtree, between those of
   * its siblings.
   */
  lemma RootSearchedThrough(pre: seq<Node>, root: Node, post: seq<Node>, term: string)
    requires IsRoot(root) && IsFolder(root)
    ensures Found(pre + [root] + post, term) == Found(pre, term) + Found(root.children.nodes, term) + Found(post, term)
  {
    FoundConcat(pre + [root], post, term);
    FoundConcat(pre, [root], term);
    FoundOne(root, term);
  }

  /**
   * `searchBookmarks`: the forEach walk that pushes each hit onto the
   * results array it closes over, recursing into every folder.
   */
  method SearchBookmarks(nodes: seq<Node>, term: string, found: seq<Node>) returns (results: seq<Node>)
    ensures results == found + Found(nodes, term)
    decreases nodes
  {
    results := found;
    for i := 0 to |nodes|
      invariant results == found + Found(nodes[..i], term)
    {
      var node := nodes[i];
      StepOfWalk(nodes, i, term);
      if node.children.Present? {
        results := SearchBookmarks(node.children.nodes, term, results);
      } else if node.url.Some? && node.url.value != "" {
        if Contains(Lower(node.title), term) || Contains(Lower(node.url.value), term) {
          results := results + [node];
          ConcatAssoc(found, Found(nodes[..i], term), [node]);
        }
      }
    }
    TakeAll(nodes);
  }

  /** What handling `nodes[i]` adds to the results of the nodes before it. */
  lemma StepOfWalk(nodes: seq<Node>, i: nat, term: string)
    requires i < |nodes|
    ensures Found(nodes[..i + 1], term) == Found(nodes[..i], term) + FoundIn(nodes[i], term)
  {
    PrefixSnoc(nodes, i);
    FoundConcat(nodes[..i], [nodes[i]], term);
    FoundOne(nodes[i], term);
  }
}
