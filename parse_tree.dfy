/** `parse_node_fr`: the structural translation from the parse tree the
    grammar produces to an `IDSNode`. The grammar itself is not part of this
    model; a parse tree is a rule tag, the text the rule matched, and the
    pairs nested inside it, as pest's `Pair` exposes them. */
module ParseTree {
  import opened Wrappers
  import opened IdsNode

  /** The rule tags `parse_node_fr` tells apart, under the grammar's own
      names; `other` stands for the grammar's remaining rules. */
  datatype Rule =
    | expr
    | ideographicA
    | strokeExpr
    | unaryExpr
    | binExpr
    | terExpr
    | hint
    | other(name: string)

  datatype Pair = Pair(rule: Rule, text: string, inner: seq<Pair>)

  /** 1 when the pairs start with a leading `{hint}`, else 0. */
  function HintSkip(inner: seq<Pair>): nat
  {
    if |inner| > 0 && inner[0].rule == hint then 1 else 0
  }

  /** The pairs are not empty (`peek().unwrap()`), and a leading hint is
      long enough to lose its two brackets. */
  predicate HintOk(inner: seq<Pair>)
  {
    |inner| > 0 && (inner[0].rule == hint ==> |inner[0].text| >= 2)
  }

  /** The text with its first and last characters (the brackets) removed. */
  function Unbracket(s: string): (r: string)
    requires |s| >= 2
    ensures |r| == |s| - 2 && forall i | 0 <= i < |r| :: r[i] == s[i + 1]
  {
    s[1..|s| - 1]
  }

  function HintText(inner: seq<Pair>): string
    requires HintOk(inner)
  {
    if HintSkip(inner) == 1 then Unbracket(inner[0].text) else ""
  }

  /** The shape `parse_node_fr` relies on: every `unwrap` finds its pair and
      every slice is in range. The grammar only produces such trees; on any
      other the Rust code panics. */
  predicate WellFormed(p: Pair)
  {
    match p.rule
    case ideographicA => |p.text| > 0
    case strokeExpr => HintOk(p.inner) && |p.inner| > HintSkip(p.inner)
    case unaryExpr =>
      |p.inner| >= 2 && |p.inner[0].text| > 0 && WellFormed(p.inner[1])
    case binExpr =>
      HintOk(p.inner) &&
      var k := HintSkip(p.inner);
      |p.inner| >= k + 3 && |p.inner[k].text| > 0
      && (|p.inner[k].inner| > 0 ==> |p.inner[k].inner[0].text| >= 2)
      && WellFormed(p.inner[k + 1]) && WellFormed(p.inner[k + 2])
    case terExpr =>
      HintOk(p.inner) &&
      var k := HintSkip(p.inner);
      |p.inner| >= k + 4 && |p.inner[k].text| > 0
      && WellFormed(p.inner[k + 1]) && WellFormed(p.inner[k + 2]) && WellFormed(p.inner[k + 3])
    case expr => |p.inner| > 0 && WellFormed(p.inner[0])
    case hint => false
    case other(_) => false
  }

  /** The nodes `parse_node_fr` can produce: atoms (a character, no stroke,
      no hint), stroke leaves (no character, no variant) and operator nodes
      (no character, no stroke, no variant; a unary one has no hint). */
  predicate Canonical(n: Node)
  {
    match n.subtree
    case Null =>
      (n.ideographic.Some? && n.strokeSeq.None? && n.glyphHint == "")
      || (n.ideographic.None? && n.strokeSeq.Some? && n.glyphVariant == "")
    case UnaryExpr(_, a) =>
      n.ideographic.None? && n.strokeSeq.None? && n.glyphHint == "" && n.glyphVariant == ""
      && Canonical(a)
    case BinExpr(_, a, b, _) =>
      n.ideographic.None? && n.strokeSeq.None? && n.glyphVariant == ""
      && Canonical(a) && Canonical(b)
    case TerExpr(_, a, b, c) =>
      n.ideographic.None? && n.strokeSeq.None? && n.glyphVariant == ""
      && Canonical(a) && Canonical(b) && Canonical(c)
  }

  /** `parse_node_fr`. */
  function ParseNode(p: Pair): (r: Node)
    requires WellFormed(p)
    ensures Canonical(r)
    ensures p.rule == ideographicA ==>
      r.ideographic == Some(p.text[0]) && r.subtree == Null
      && r.glyphVariant == (if |p.inner| >= 2 then p.inner[1].text else "")
    ensures p.rule in {strokeExpr, binExpr, terExpr} ==> r.glyphHint == HintText(p.inner)
    ensures p.rule == unaryExpr ==> r.glyphHint == ""
    ensures p.rule == strokeExpr ==>
      r.ideographic == None && r.strokeSeq == Some(p.inner[HintSkip(p.inner)].text) && r.subtree == Null
    ensures p.rule == binExpr ==>
      var op := p.inner[HintSkip(p.inner)];
      r.subtree.BinExpr? && r.subtree.op == op.text[0]
      && r.subtree.opArg == (if |op.inner| > 0 then Some(Unbracket(op.inner[0].text)) else None)
    ensures p.rule == expr ==> r == ParseNode(p.inner[0])
  {
    match p.rule
    case ideographicA =>
      Node(Some(p.text[0]), None, "", Null, if |p.inner| >= 2 then p.inner[1].text else "")
    case strokeExpr =>
      var k := HintSkip(p.inner);
      Node(None, Some(p.inner[k].text), HintText(p.inner), Null, "")
    case unaryExpr =>
      Node(None, None, "", UnaryExpr(p.inner[0].text[0], ParseNode(p.inner[1])), "")
    case binExpr =>
      var k := HintSkip(p.inner);
      var op := p.inner[k];
      var overlay := if |op.inner| > 0 then Some(Unbracket(op.inner[0].text)) else None;
      Node(None, None, HintText(p.inner),
           BinExpr(op.text[0], ParseNode(p.inner[k + 1]), ParseNode(p.inner[k + 2]), overlay),
           "")
    case terExpr =>
      var k := HintSkip(p.inner);
      Node(None, None, HintText(p.inner),
           TerExpr(p.inner[k].text[0], ParseNode(p.inner[k + 1]), ParseNode(p.inner[k + 2]),
                   ParseNode(p.inner[k + 3])),
           "")
    case expr => ParseNode(p.inner[0])
  }

  // ---------------------------------------------------------------------
  // The canonical parse tree of a node, and the round trip
  // ---------------------------------------------------------------------

  /** The description text of a node, as the grammar would read it. */
  function Unparse(n: Node): string
  {
    var h := if n.glyphHint == "" then "" else "{" + n.glyphHint + "}";
    match n.subtree
    case Null =>
      if n.ideographic.Some? then
        [n.ideographic.value] + (if n.glyphVariant == "" then "" else "(" + n.glyphVariant + ")")
      else h + (if n.strokeSeq.Some? then n.strokeSeq.value else "")
    case UnaryExpr(op, a) => [op] + Unparse(a)
    case BinExpr(op, a, b, overlay) =>
      h + [op] + (if overlay.Some? then "[" + overlay.value + "]" else "") + Unparse(a) + Unparse(b)
    case TerExpr(op, a, b, c) => h + [op] + Unparse(a) + Unparse(b) + Unparse(c)
  }

  function HintPairs(h: string): seq<Pair>
  {
    if h == "" then [] else [Pair(hint, "{" + h + "}", [])]
  }

  /** The `{hint}` pair, if any, contributes exactly the hint back. */
  lemma HintPairsText(h: string, rest: seq<Pair>)
    requires |rest| > 0 && rest[0].rule != hint
    ensures HintOk(HintPairs(h) + rest)
    ensures HintSkip(HintPairs(h) + rest) == |HintPairs(h)|
    ensures HintText(HintPairs(h) + rest) == h
    ensures (HintPairs(h) + rest)[|HintPairs(h)|..] == rest
  {
    if h != "" {
      assert ("{" + h + "}")[1..|h| + 1] == h;
    }
  }

  /** An argument as the grammar nests it: an `expr` around the alternative. */
  function ArgPair(n: Node): (p: Pair)
    requires Canonical(n)
    ensures WellFormed(p)
    decreases n, 1
  {
    Pair(expr, Unparse(n), [ToPair(n)])
  }

  /** The operator pair of a binary expression, with its overlay inside. */
  function OpPair(op: char, overlay: Option<string>): Pair
  {
    var arg := if overlay.Some? then "[" + overlay.value + "]" else "";
    Pair(other("op"), [op] + arg,
         if overlay.Some? then [Pair(other("overlay"), arg, [])] else [])
  }

  /** The pairs of an operator expression: an optional hint, then the rest. */
  function Compound(rule: Rule, text: string, h: string, rest: seq<Pair>): (p: Pair)
    requires |rest| > 0 && rest[0].rule != hint
    ensures HintOk(p.inner) && HintSkip(p.inner) == |HintPairs(h)|
    ensures HintText(p.inner) == h && p.inner[HintSkip(p.inner)..] == rest
    ensures |p.inner| == HintSkip(p.inner) + |rest|
    ensures forall i | 0 <= i < |rest| :: p.inner[HintSkip(p.inner) + i] == rest[i]
    ensures p.rule == rule
  {
    HintPairsText(h, rest);
    Pair(rule, text, HintPairs(h) + rest)
  }

  /** A ternary expression over the given argument pairs. */
  function TerPair(text: string, h: string, op: char, a: Pair, b: Pair, c: Pair): (p: Pair)
    requires WellFormed(a) && WellFormed(b) && WellFormed(c)
    ensures WellFormed(p)
    ensures p.rule == terExpr && HintText(p.inner) == h
    ensures var k := HintSkip(p.inner);
      p.inner[k].text == [op] && p.inner[k + 1] == a && p.inner[k + 2] == b && p.inner[k + 3] == c
  {
    var rest := [Pair(other("op"), [op], []), a, b, c];
    var p := Compound(terExpr, text, h, rest);
    var k := HintSkip(p.inner);
    assert p.inner[k] == rest[0] && p.inner[k + 1] == a;
    assert p.inner[k + 2] == b && p.inner[k + 3] == c;
    assert |p.inner| >= k + 4 && |p.inner[k].text| > 0;
    assert WellFormed(p.inner[k + 1]) && WellFormed(p.inner[k + 2]) && WellFormed(p.inner[k + 3]);
    p
  }

  /** The parse tree the grammar builds for the description of `n`. */
  function ToPair(n: Node): (p: Pair)
    requires Canonical(n)
    ensures WellFormed(p)
    decreases n, 0
  {
    var h := n.glyphHint;
    match n.subtree
    case Null =>
      if n.ideographic.Some? then
        Pair(ideographicA, Unparse(n),
             [Pair(other("ideographic"), [n.ideographic.value], [])]
             + (if n.glyphVariant == "" then [] else [Pair(other("variant"), n.glyphVariant, [])]))
      else
        Compound(strokeExpr, Unparse(n), h, [Pair(other("strokeSeq"), n.strokeSeq.value, [])])
    case UnaryExpr(op, a) =>
      Pair(unaryExpr, Unparse(n), [Pair(other("op"), [op], []), ArgPair(a)])
    case BinExpr(op, a, b, overlay) =>
      var rest := [OpPair(op, overlay), ArgPair(a), ArgPair(b)];
      var p := Compound(binExpr, Unparse(n), h, rest);
      var k := HintSkip(p.inner);
      assert p.inner[k] == rest[0] && p.inner[k + 1] == rest[1] && p.inner[k + 2] == rest[2];
      p
    case TerExpr(op, a, b, c) =>
      TerPair(Unparse(n), h, op, ArgPair(a), ArgPair(b), ArgPair(c))
  }

  /** Every node `parse_node_fr` can produce is read back unchanged from its
      parse tree: the mapping loses nothing of a canonical node. */
  lemma {:induction false} ParseNodeToPair(n: Node)
    requires Canonical(n)
    ensures ParseNode(ToPair(n)) == n
    ensures ParseNode(ArgPair(n)) == n
    decreases n, 1
  {
    match n.subtree
    case Null =>
    case UnaryExpr(op, a) =>
      ParseNodeToPair(a);
    case BinExpr(op, a, b, overlay) =>
      ParseBinToPair(n);
    case TerExpr(op, a, b, c) =>
      ParseTerToPair(n);
  }

  lemma {:induction false} ParseBinToPair(n: Node)
    requires Canonical(n) && n.subtree.BinExpr?
    ensures ParseNode(ToPair(n)) == n
    decreases n, 0
  {
    var BinExpr(op, a, b, overlay) := n.subtree;
    ParseNodeToPair(a);
    ParseNodeToPair(b);
    var p := ToPair(n);
    var k := HintSkip(p.inner);
    assert p.inner[k..] == [OpPair(op, overlay), ArgPair(a), ArgPair(b)];
    assert p.inner[k] == OpPair(op, overlay);
    if overlay.Some? {
      assert Unbracket(p.inner[k].inner[0].text) == overlay.value;
    }
  }

  lemma {:induction false} ParseTerToPair(n: Node)
    requires Canonical(n) && n.subtree.TerExpr?
    ensures ParseNode(ToPair(n)) == n
    decreases n, 0
  {
    var TerExpr(op, a, b, c) := n.subtree;
    ParseNodeToPair(a);
    ParseNodeToPair(b);
    ParseNodeToPair(c);
    var p := ToPair(n);
    assert p == TerPair(Unparse(n), n.glyphHint, op, ArgPair(a), ArgPair(b), ArgPair(c));
  }
}
