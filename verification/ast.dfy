/** The parsed Markdown tree the tree builders walk: an abstract stand-in for
    the blackfriday node, keeping the node type and the payload fields the
    builders read. Parsing itself is foreign code and is not modelled; the
    builders are functions of this tree.

    `Walk` visits a node and then its children in order (pre-order), and a
    callback may skip a node's children; each builder's walk is written out
    as a pair of recursive functions over a node and a sequence of siblings. */
module Ast {

  datatype Kind =
    | Document | BlockQuote | List | Item | Paragraph | Heading | HorizontalRule
    | Emph | Strong | Del | Link | Image | Text | HTMLBlock | CodeBlock
    | Softbreak | Hardbreak | Code | HTMLSpan
    | Table | TableCell | TableHead | TableBody | TableRow

  /** A parsed node: its type, `Literal`, `HeadingData.Level` (1 to 6 from
      the parser, never negative),
      `LinkData.Destination`, `CodeBlockData.Info` and children. */
  datatype ANode = ANode(kind: Kind, literal: string, level: nat, destination: string, info: string, children: seq<ANode>)

  /** A node with no payload. */
  function Plain(kind: Kind, children: seq<ANode>): (r: ANode)
    ensures r.kind == kind && r.children == children && r.literal == []
  {
    ANode(kind, "", 0, "", "", children)
  }

  /** A text leaf. */
  function TextLeaf(s: string): (r: ANode)
    ensures r.kind == Text && r.literal == s && r.children == []
  {
    ANode(Text, s, 0, "", "", [])
  }

  /** `extractText`: the literals of every text node in the subtree, in
      pre-order, the node itself included. */
  function ExtractText(n: ANode): string
    decreases n, 0
  {
    (if n.kind == Text then n.literal else "") + ExtractTextAll(n.children)
  }

  function ExtractTextAll(ns: seq<ANode>): string
    decreases ns, 1
  {
    if ns == [] then "" else ExtractText(ns[0]) + ExtractTextAll(ns[1..])
  }

  /** Extracting the text of siblings distributes over concatenation. */
  lemma {:induction false} ExtractTextAllAppend(a: seq<ANode>, b: seq<ANode>)
    ensures ExtractTextAll(a + b) == ExtractTextAll(a) + ExtractTextAll(b)
    decreases |a|
  {
    if a != [] {
      assert (a + b)[1..] == a[1..] + b;
      ExtractTextAllAppend(a[1..], b);
    } else {
      assert a + b == b;
    }
  }

  /** The text of a subtree is non-empty exactly when some text node in it
      has a non-empty literal. */
  predicate HasText(n: ANode)
    decreases n, 0
  {
    (n.kind == Text && n.literal != []) || HasTextAll(n.children)
  }

  predicate HasTextAll(ns: seq<ANode>)
    decreases ns, 1
  {
    ns != [] && (HasText(ns[0]) || HasTextAll(ns[1..]))
  }

  lemma {:induction false} ExtractTextEmpty(n: ANode)
    ensures ExtractText(n) == [] <==> !HasText(n)
    decreases n, 0
  {
    ExtractTextAllEmpty(n.children);
  }

  lemma {:induction false} ExtractTextAllEmpty(ns: seq<ANode>)
    ensures ExtractTextAll(ns) == [] <==> !HasTextAll(ns)
    decreases ns, 1
  {
    if ns != [] {
      ExtractTextEmpty(ns[0]);
      ExtractTextAllEmpty(ns[1..]);
    }
  }

  /** Whether a block quote occurs anywhere in the subtree. */
  predicate HasQuote(n: ANode)
    decreases n, 0
  {
    n.kind == BlockQuote || HasQuoteAll(n.children)
  }

  predicate HasQuoteAll(ns: seq<ANode>)
    decreases ns, 1
  {
    ns != [] && (HasQuote(ns[0]) || HasQuoteAll(ns[1..]))
  }
}
