/** The parsed HTML document tree, as produced by golang.org/x/net/html.
    A node's children are listed in sibling order, i.e. the chain
    FirstChild, FirstChild.NextSibling, ... of the library's linked
    representation. */
module Html {

  /** The node kinds of golang.org/x/net/html. */
  datatype NodeType =
    | ErrorNode
    | TextNode
    | DocumentNode
    | ElementNode
    | CommentNode
    | DoctypeNode
    | RawNode

  /** For an element node `data` is the tag name; for a text node it is the
      text itself; for a comment it is the comment body. */
  datatype Node = Node(kind: NodeType, data: string, children: seq<Node>)

  /** An element node with the given tag name. */
  predicate IsElement(n: Node, tag: string) {
    n.kind == ElementNode && n.data == tag
  }

  function Element(tag: string, children: seq<Node>): Node {
    Node(ElementNode, tag, children)
  }

  function Text(s: string): Node {
    Node(TextNode, s, [])
  }
}
