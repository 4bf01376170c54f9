/**
 * The bookmark tree as the browser's bookmark API hands it to the page:
 * every node has an id and a title, a bookmark carries a url, and a folder
 * carries an ordered list of children.
 */
module Bookmarks {
  import opened Seqs

  datatype Option<T> = None | Some(value: T)

  /** A node's `children` property: absent, or an ordered list of nodes. */
  datatype Children = Absent | Present(nodes: seq<Node>)

  datatype Node = Node(id: string, title: string, url: Option<string>, children: Children)

  /** The id the browser gives the synthetic root above "bookmarks bar" and "other bookmarks". */
  const RootId: string := "0"

  predicate IsRoot(n: Node)
  {
    n.id == RootId
  }

  /** A node counts as a folder exactly when it has a `children` list, empty or not. */
  predicate IsFolder(n: Node)
  {
    n.children.Present?
  }

  /** `if (node.url)`: the url is there and is not the empty string. */
  predicate HasTruthyUrl(n: Node)
  {
    n.url.Some? && n.url.value != ""
  }

  /** Every node of a forest in pre-order: a node, then its subtree, then its later siblings. */
  function Preorder(ns: seq<Node>): seq<Node>
  {
    if ns == [] then [] else Subtree(ns[0]) + Preorder(ns[1..])
  }

  function Subtree(n: Node): seq<Node>
  {
    match n.children
    case Absent => [n]
    case Present(c) => [n] + Preorder(c)
  }

  lemma {:induction false} PreorderConcat(a: seq<Node>, b: seq<Node>)
    ensures Preorder(a + b) == Preorder(a) + Preorder(b)
  {
    if a == [] {
      ConcatEmpty(a, b);
      ConcatEmpty(Preorder(a), Preorder(b));
    } else {
      ConcatFront(a, b);
      PreorderConcat(a[1..], b);
      ConcatAssoc(Subtree(a[0]), Preorder(a[1..]), Preorder(b));
    }
  }
}
