/** The composition tree of `src/lib.rs`: `IDSExpr`, `IDSNode` and `IDS`. */
module IdsNode {
  import opened Wrappers

  /** How a node decomposes: no decomposition, or an operator with one,
      two (plus an optional overlay text) or three arguments. */
  datatype Expr =
    | Null
    | UnaryExpr(op: char, arg1: Node)
    | BinExpr(op: char, arg1: Node, arg2: Node, opArg: Option<string>)
    | TerExpr(op: char, arg1: Node, arg2: Node, arg3: Node)

  /** One node of the tree. A node with a character and a `Null` subtree is
      an atom that has not been expanded yet; a stroke leaf has no character. */
  datatype Node = Node(
    ideographic: Option<char>,
    strokeSeq: Option<string>,
    glyphHint: string,
    subtree: Expr,
    glyphVariant: string)

  /** The tree handed back to callers of `create_tree`. */
  datatype Ids = Ids(root: Node)

  /** The child slots of an expression, in argument order. */
  function Children(e: Expr): (r: seq<Node>)
    ensures |r| == Arity(e)
  {
    match e
    case Null => []
    case UnaryExpr(_, a) => [a]
    case BinExpr(_, a, b, _) => [a, b]
    case TerExpr(_, a, b, c) => [a, b, c]
  }

  function Arity(e: Expr): nat
  {
    match e
    case Null => 0
    case UnaryExpr(_, _) => 1
    case BinExpr(_, _, _, _) => 2
    case TerExpr(_, _, _, _) => 3
  }

  /** The atom test of `extend_node`: a character and nothing below it. */
  predicate Unresolved(n: Node)
  {
    n.ideographic.Some? && n.subtree.Null?
  }

  /** Number of nodes in the tree. */
  function Size(n: Node): nat
  {
    match n.subtree
    case Null => 1
    case UnaryExpr(_, a) => 1 + Size(a)
    case BinExpr(_, a, b, _) => 1 + Size(a) + Size(b)
    case TerExpr(_, a, b, c) => 1 + Size(a) + Size(b) + Size(c)
  }

  function Max(a: nat, b: nat): nat
  {
    if a < b then b else a
  }

  /** Length of the longest path from `n` down to a leaf, in edges. */
  function Depth(n: Node): nat
  {
    match n.subtree
    case Null => 0
    case UnaryExpr(_, a) => 1 + Depth(a)
    case BinExpr(_, a, b, _) => 1 + Max(Depth(a), Depth(b))
    case TerExpr(_, a, b, c) => 1 + Max(Depth(a), Max(Depth(b), Depth(c)))
  }
}
