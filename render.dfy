/** The two renderers of `src/lib.rs`: the depth-limited flat form
    `to_string_simp` and the indented diagnostic tree `fmt_tree_r`, and the
    `Display` impl of `IDS` that calls the latter. */
module Render {
  import opened Wrappers
  import opened Strings
  import opened IdsNode

  // ---------------------------------------------------------------------
  // Simplified form
  // ---------------------------------------------------------------------

  /** The level handed to the children: one less, but a level of 1 stays 1
      (and a level of 0, which never collapses, stays 0). */
  function NextLevel(level: nat): nat
  {
    if level > 1 then level - 1 else level
  }

  /** `to_string_simp`: at level 1 a node with a character collapses to that
      character; otherwise the operator followed by the arguments' renderings. */
  function ToStringSimp(n: Node, level: nat): (r: string)
    ensures level == 1 && n.ideographic.Some? ==> r == [n.ideographic.value]
    ensures !(level == 1 && n.ideographic.Some?) && n.subtree.Null? ==> r == ""
    ensures |r| <= Size(n)
  {
    if level == 1 && n.ideographic.Some? then [n.ideographic.value]
    else
      var next := NextLevel(level);
      match n.subtree
      case UnaryExpr(op, a) => [op] + ToStringSimp(a, next)
      case BinExpr(op, a, b, _) => [op] + ToStringSimp(a, next) + ToStringSimp(b, next)
      case TerExpr(op, a, b, c) =>
        [op] + ToStringSimp(a, next) + ToStringSimp(b, next) + ToStringSimp(c, next)
      case Null => ""
  }

  /** The renderings of a sequence of nodes, concatenated in order. */
  function SimpAll(ns: seq<Node>, level: nat): string
  {
    if |ns| == 0 then "" else ToStringSimp(ns[0], level) + SimpAll(ns[1..], level)
  }

  function OpOf(e: Expr): char
    requires !e.Null?
  {
    e.op
  }

  /** An operator node that does not collapse renders as its operator
      followed by its arguments, in argument order, one level further down. */
  lemma SimpOperatorNode(n: Node, level: nat)
    requires !n.subtree.Null? && !(level == 1 && n.ideographic.Some?)
    ensures ToStringSimp(n, level)
            == [OpOf(n.subtree)] + SimpAll(Children(n.subtree), NextLevel(level))
  {
    var next := NextLevel(level);
    match n.subtree
    case UnaryExpr(_, a) =>
      SimpAllOne(a, next);
    case BinExpr(_, a, b, _) =>
      SimpAllOne(b, next);
      SimpAllCons(a, [b], next);
    case TerExpr(_, a, b, c) =>
      SimpAllOne(c, next);
      SimpAllCons(b, [c], next);
      SimpAllCons(a, [b, c], next);
      assert [a] + [b, c] == [a, b, c];
      Assoc([n.subtree.op], ToStringSimp(a, next), ToStringSimp(b, next) + ToStringSimp(c, next));
      Assoc([n.subtree.op] + ToStringSimp(a, next), ToStringSimp(b, next), ToStringSimp(c, next));
  }

  lemma SimpAllOne(a: Node, level: nat)
    ensures SimpAll([a], level) == ToStringSimp(a, level)
  {
    assert [a][1..] == [];
    assert SimpAll([a], level) == ToStringSimp(a, level) + "";
  }

  lemma SimpAllCons(a: Node, rest: seq<Node>, level: nat)
    ensures SimpAll([a] + rest, level) == ToStringSimp(a, level) + SimpAll(rest, level)
  {
    assert ([a] + rest)[1..] == rest;
  }

  /** The operator characters of the tree in pre-order. */
  function Ops(n: Node): string
  {
    match n.subtree
    case Null => ""
    case UnaryExpr(op, a) => [op] + Ops(a)
    case BinExpr(op, a, b, _) => [op] + Ops(a) + Ops(b)
    case TerExpr(op, a, b, c) => [op] + Ops(a) + Ops(b) + Ops(c)
  }

  /** The rendering never collapses at level 0, nor at a level deeper than the
      tree: then it lists exactly the operators in pre-order. */
  lemma {:induction false} SimpWithoutCollapse(n: Node, level: nat)
    requires level == 0 || level >= Depth(n) + 2
    ensures ToStringSimp(n, level) == Ops(n)
  {
    var next := NextLevel(level);
    match n.subtree
    case Null =>
    case UnaryExpr(_, a) =>
      SimpWithoutCollapse(a, next);
    case BinExpr(_, a, b, _) =>
      SimpWithoutCollapse(a, next);
      SimpWithoutCollapse(b, next);
    case TerExpr(_, a, b, c) =>
      SimpWithoutCollapse(a, next);
      SimpWithoutCollapse(b, next);
      SimpWithoutCollapse(c, next);
  }

  /** The tree with every annotation removed: no overlay text, hint, variant
      or stroke sequence; characters, operators and shape are kept. */
  function Erase(n: Node): Node
  {
    var e := match n.subtree
      case Null => Null
      case UnaryExpr(op, a) => UnaryExpr(op, Erase(a))
      case BinExpr(op, a, b, _) => BinExpr(op, Erase(a), Erase(b), None)
      case TerExpr(op, a, b, c) => TerExpr(op, Erase(a), Erase(b), Erase(c));
    Node(n.ideographic, None, "", e, "")
  }

  /** The simplified form shows no annotation: neither the overlay argument,
      nor hints, variants or stroke sequences. */
  lemma {:induction false} SimpIgnoresAnnotations(n: Node, level: nat)
    ensures ToStringSimp(Erase(n), level) == ToStringSimp(n, level)
  {
    var next := NextLevel(level);
    match n.subtree
    case Null =>
    case UnaryExpr(_, a) =>
      SimpIgnoresAnnotations(a, next);
    case BinExpr(_, a, b, _) =>
      SimpIgnoresAnnotations(a, next);
      SimpIgnoresAnnotations(b, next);
    case TerExpr(_, a, b, c) =>
      SimpIgnoresAnnotations(a, next);
      SimpIgnoresAnnotations(b, next);
      SimpIgnoresAnnotations(c, next);
  }

  // ---------------------------------------------------------------------
  // Diagnostic tree form
  // ---------------------------------------------------------------------

  /** The operator, with the overlay argument in brackets when there is one. */
  function OpLabel(e: Expr): string
  {
    match e
    case UnaryExpr(op, _) => [op]
    case BinExpr(op, _, _, overlay) =>
      [op] + (if overlay.Some? then "[" + overlay.value + "]" else "")
    case TerExpr(op, _, _, _) => [op]
    case Null => ""
  }

  /** The character, with a non-empty variant in parentheses, then a blank. */
  function CharLabel(n: Node): string
  {
    if n.ideographic.Some? then
      [n.ideographic.value]
      + (if |n.glyphVariant| != 0 then "(" + n.glyphVariant + ")" else "")
      + " "
    else ""
  }

  function StrokeLabel(n: Node): string
  {
    if n.strokeSeq.Some? then n.strokeSeq.value + " " else ""
  }

  function HintLabel(n: Node): string
  {
    if |n.glyphHint| > 0 then "Hint: {" + n.glyphHint + "}" else ""
  }

  /** What a node line shows only when present: the overlay argument only
      for a binary operator that has one, the variant only after a character
      and only when non-empty, the hint only when non-empty. */
  lemma LabelsShowOnlyPresent(n: Node)
    ensures CharLabel(n) == "" <==> n.ideographic.None?
    ensures n.ideographic.Some? && n.ideographic.value != '(' ==>
              ('(' in CharLabel(n) <==> |n.glyphVariant| > 0)
    ensures n.ideographic.Some? && |n.glyphVariant| > 0 ==>
              CharLabel(n)[1..|n.glyphVariant| + 3] == "(" + n.glyphVariant + ")"
    ensures HintLabel(n) == "" <==> |n.glyphHint| == 0
    ensures !n.subtree.Null? && n.subtree.op != '[' ==>
              ('[' in OpLabel(n.subtree) <==> n.subtree.BinExpr? && n.subtree.opArg.Some?)
  {
    if n.ideographic.Some? {
      var v := n.glyphVariant;
      var ch := n.ideographic.value;
      if |v| > 0 {
        assert CharLabel(n) == [ch] + ("(" + v + ")") + " ";
        assert '(' == CharLabel(n)[1];
      } else {
        assert CharLabel(n) == [ch] + " ";
      }
    }
    if n.subtree.BinExpr? && n.subtree.opArg.Some? {
      assert OpLabel(n.subtree)[1] == '[';
    }
  }

  /** The one line `fmt_tree_r` writes for a node at `level`. */
  function NodeLine(n: Node, level: nat): string
  {
    Spaces(4 * level) + "* " + OpLabel(n.subtree) + "\t"
    + CharLabel(n) + StrokeLabel(n) + HintLabel(n) + "\n"
  }

  /** `fmt_tree_r`: the node's line, then its arguments at `level + 1`. */
  function FmtTree(n: Node, level: nat): string
  {
    NodeLine(n, level) + FmtArgs(n.subtree, level + 1)
  }

  /** The diagnostic forms of an expression's arguments, in argument order. */
  function FmtArgs(e: Expr, level: nat): string
  {
    match e
    case Null => ""
    case UnaryExpr(_, a) => FmtTree(a, level)
    case BinExpr(_, a, b, _) => FmtTree(a, level) + FmtTree(b, level)
    case TerExpr(_, a, b, c) => FmtTree(a, level) + FmtTree(b, level) + FmtTree(c, level)
  }

  /** `Display for IDS`: the quoted root character (if any), a newline, then
      the tree from level 0. */
  function Display(ids: Ids): string
  {
    (if ids.root.ideographic.Some? then "'" + [ids.root.ideographic.value] + "' " else "")
    + "\n" + FmtTree(ids.root, 0)
  }

  /** Every node of the tree paired with its level, in pre-order. */
  function Preorder(n: Node, level: nat): seq<(Node, nat)>
  {
    [(n, level)] +
    match n.subtree
    case Null => []
    case UnaryExpr(_, a) => Preorder(a, level + 1)
    case BinExpr(_, a, b, _) => Preorder(a, level + 1) + Preorder(b, level + 1)
    case TerExpr(_, a, b, c) =>
      Preorder(a, level + 1) + Preorder(b, level + 1) + Preorder(c, level + 1)
  }

  /** The lines of a list of (node, level) entries, one after another. */
  function Lines(ps: seq<(Node, nat)>): string
  {
    if |ps| == 0 then "" else NodeLine(ps[0].0, ps[0].1) + Lines(ps[1..])
  }

  lemma {:induction false} LinesAppend(a: seq<(Node, nat)>, b: seq<(Node, nat)>)
    ensures Lines(a + b) == Lines(a) + Lines(b)
  {
    if |a| > 0 {
      assert (a + b)[1..] == a[1..] + b;
      LinesAppend(a[1..], b);
    } else {
      assert a + b == b;
    }
  }

  /** The diagnostic form is exactly one line per node, in pre-order, each
      at its depth below `level`. */
  lemma {:induction false} FmtTreeIsPreorderLines(n: Node, level: nat)
    ensures FmtTree(n, level) == Lines(Preorder(n, level))
  {
    var l := level + 1;
    var head := [(n, level)];
    assert Lines(head) == NodeLine(n, level);
    match n.subtree
    case Null =>
      assert Preorder(n, level) == head;
    case UnaryExpr(_, a) =>
      FmtTreeIsPreorderLines(a, l);
      LinesAppend(head, Preorder(a, l));
    case BinExpr(_, a, b, _) =>
      FmtTreeIsPreorderLines(a, l);
      FmtTreeIsPreorderLines(b, l);
      LinesAppend(Preorder(a, l), Preorder(b, l));
      assert Preorder(n, level) == head + (Preorder(a, l) + Preorder(b, l));
      LinesAppend(head, Preorder(a, l) + Preorder(b, l));
    case TerExpr(_, a, b, c) =>
      FmtTreeIsPreorderLines(a, l);
      FmtTreeIsPreorderLines(b, l);
      FmtTreeIsPreorderLines(c, l);
      LinesAppend(Preorder(a, l), Preorder(b, l));
      LinesAppend(Preorder(a, l) + Preorder(b, l), Preorder(c, l));
      assert Preorder(n, level) == head + (Preorder(a, l) + Preorder(b, l) + Preorder(c, l));
      LinesAppend(head, Preorder(a, l) + Preorder(b, l) + Preorder(c, l));
  }

  /** Number of entries of `ps` at level `k`. */
  function CountLevel(ps: seq<(Node, nat)>, k: nat): nat
  {
    if |ps| == 0 then 0 else (if ps[0].1 == k then 1 else 0) + CountLevel(ps[1..], k)
  }

  lemma {:induction false} CountLevelAppend(a: seq<(Node, nat)>, b: seq<(Node, nat)>, k: nat)
    ensures CountLevel(a + b, k) == CountLevel(a, k) + CountLevel(b, k)
  {
    if |a| > 0 {
      assert (a + b)[1..] == a[1..] + b;
      CountLevelAppend(a[1..], b, k);
    } else {
      assert a + b == b;
    }
  }

  lemma {:induction false} CountLevelAbove(ps: seq<(Node, nat)>, k: nat)
    requires forall i | 0 <= i < |ps| :: ps[i].1 > k
    ensures CountLevel(ps, k) == 0
  {
    if |ps| > 0 {
      CountLevelAbove(ps[1..], k);
    }
  }

  /** The pre-order listing has one entry per node, starts with the node
      itself at `level`, puts every descendant deeper than `level`, and
      holds exactly as many entries at `level + 1` as the operator has
      arguments. */
  lemma {:induction false} PreorderShape(n: Node, level: nat)
    ensures |Preorder(n, level)| == Size(n)
    ensures Preorder(n, level)[0] == (n, level)
    ensures forall i | 1 <= i < |Preorder(n, level)| :: Preorder(n, level)[i].1 > level
    ensures CountLevel(Preorder(n, level), level + 1) == Arity(n.subtree)
    decreases n, 1
  {
    var l := level + 1;
    var head := [(n, level)];
    var p := Preorder(n, level);
    match n.subtree
    case Null =>
    case UnaryExpr(_, a) =>
      ChildPreorder(a, l);
      assert p == head + Preorder(a, l);
      CountLevelAppend(head, Preorder(a, l), l);
    case BinExpr(_, a, b, _) =>
      ChildPreorder(a, l);
      ChildPreorder(b, l);
      var rest := Preorder(a, l) + Preorder(b, l);
      assert p == head + rest;
      CountLevelAppend(Preorder(a, l), Preorder(b, l), l);
      CountLevelAppend(head, rest, l);
    case TerExpr(_, a, b, c) =>
      ChildPreorder(a, l);
      ChildPreorder(b, l);
      ChildPreorder(c, l);
      var rest := Preorder(a, l) + Preorder(b, l) + Preorder(c, l);
      assert p == head + rest;
      CountLevelAppend(Preorder(a, l), Preorder(b, l), l);
      CountLevelAppend(Preorder(a, l) + Preorder(b, l), Preorder(c, l), l);
      CountLevelAppend(head, rest, l);
  }

  /** An argument's own listing: one entry at its level (its first), the
      rest deeper. */
  lemma {:induction false} ChildPreorder(c: Node, l: nat)
    ensures |Preorder(c, l)| == Size(c)
    ensures forall i | 0 <= i < |Preorder(c, l)| :: Preorder(c, l)[i].1 >= l
    ensures CountLevel(Preorder(c, l), l) == 1
    decreases c, 2
  {
    var p := Preorder(c, l);
    PreorderShape(c, l);
    CountLevelAbove(p[1..], l);
  }

  /** None of the node's annotations spans a line break. */
  predicate NoBreaks(n: Node)
  {
    n.ideographic != Some('\n') && (!n.subtree.Null? ==> n.subtree.op != '\n')
    && '\n' !in n.glyphHint && '\n' !in n.glyphVariant
    && (n.strokeSeq.Some? ==> '\n' !in n.strokeSeq.value)
    && (n.subtree.BinExpr? && n.subtree.opArg.Some? ==> '\n' !in n.subtree.opArg.value)
    && match n.subtree
       case Null => true
       case UnaryExpr(_, a) => NoBreaks(a)
       case BinExpr(_, a, b, _) => NoBreaks(a) && NoBreaks(b)
       case TerExpr(_, a, b, c) => NoBreaks(a) && NoBreaks(b) && NoBreaks(c)
  }

  /** The part of a node line between the indentation and the line break. */
  function LineBody(n: Node): string
  {
    OpLabel(n.subtree) + "\t" + CharLabel(n) + StrokeLabel(n) + HintLabel(n)
  }

  lemma NodeLineParts(n: Node, level: nat)
    ensures NodeLine(n, level) == (Spaces(4 * level) + "* ") + (LineBody(n) + "\n")
  {
  }

  lemma LineBodyNoBreak(n: Node)
    requires NoBreaks(n)
    ensures Count('\n', LineBody(n)) == 0
  {
    NoBreakLabels(n);
    CountAppend('\n', OpLabel(n.subtree), "\t");
    CountAppend('\n', OpLabel(n.subtree) + "\t", CharLabel(n));
    CountAppend('\n', OpLabel(n.subtree) + "\t" + CharLabel(n), StrokeLabel(n));
    CountAppend('\n', OpLabel(n.subtree) + "\t" + CharLabel(n) + StrokeLabel(n), HintLabel(n));
  }

  /** A node's line starts with four blanks per level and "* ", and ends with
      its only line break when no annotation holds one. */
  lemma NodeLineLayout(n: Node, level: nat)
    ensures |NodeLine(n, level)| > 4 * level + 2
    ensures NodeLine(n, level)[..4 * level + 2] == Spaces(4 * level) + "* "
    ensures NodeLine(n, level)[|NodeLine(n, level)| - 1] == '\n'
    ensures NoBreaks(n) ==> Count('\n', NodeLine(n, level)) == 1
  {
    var indent := Spaces(4 * level) + "* ";
    var tail := LineBody(n) + "\n";
    NodeLineParts(n, level);
    assert (indent + tail)[..4 * level + 2] == indent;
    if NoBreaks(n) {
      LineBodyNoBreak(n);
      CountZero('\n', Spaces(4 * level));
      CountAppend('\n', Spaces(4 * level), "* ");
      CountAppend('\n', LineBody(n), "\n");
      CountAppend('\n', indent, tail);
    }
  }

  lemma NoBreakLabels(n: Node)
    requires NoBreaks(n)
    ensures Count('\n', OpLabel(n.subtree)) == 0 && Count('\n', CharLabel(n)) == 0
    ensures Count('\n', StrokeLabel(n)) == 0 && Count('\n', HintLabel(n)) == 0
  {
    CountZero('\n', OpLabel(n.subtree));
    CountZero('\n', CharLabel(n));
    CountZero('\n', StrokeLabel(n));
    CountZero('\n', HintLabel(n));
  }

  /** Without line breaks in the annotations, the diagnostic form holds
      exactly one line per node. */
  lemma {:induction false} FmtTreeLineCount(n: Node, level: nat)
    requires NoBreaks(n)
    ensures Count('\n', FmtTree(n, level)) == Size(n)
  {
    var l := level + 1;
    NodeLineLayout(n, level);
    var line := NodeLine(n, level);
    match n.subtree
    case Null =>
      assert FmtTree(n, level) == line + "";
      CountAppend('\n', line, "");
    case UnaryExpr(_, a) =>
      FmtTreeLineCount(a, l);
      CountAppend('\n', line, FmtTree(a, l));
    case BinExpr(_, a, b, _) =>
      FmtTreeLineCount(a, l);
      FmtTreeLineCount(b, l);
      CountAppend('\n', FmtTree(a, l), FmtTree(b, l));
      CountAppend('\n', line, FmtTree(a, l) + FmtTree(b, l));
    case TerExpr(_, a, b, c) =>
      FmtTreeLineCount(a, l);
      FmtTreeLineCount(b, l);
      FmtTreeLineCount(c, l);
      CountAppend('\n', FmtTree(a, l), FmtTree(b, l));
      CountAppend('\n', FmtTree(a, l) + FmtTree(b, l), FmtTree(c, l));
      CountAppend('\n', line, FmtTree(a, l) + FmtTree(b, l) + FmtTree(c, l));
  }

  lemma Assoc(a: string, b: string, c: string)
    ensures a + b + c == a + (b + c)
  {
  }

  /** The `std::fmt::Formatter` the diagnostic form is written to: the text
      written so far. Writing to a string never fails, so `Write` has no
      error path. */
  class Formatter {
    var out: string

    constructor ()
      ensures out == ""
    {
      out := "";
    }

    method Write(s: string)
      modifies this
      ensures out == old(out) + s
    {
      out := out + s;
    }

    /** The operator part of a node's line (src/lib.rs:76-92). */
    method WriteOp(e: Expr)
      modifies this
      ensures out == old(out) + OpLabel(e)
    {
      match e {
        case UnaryExpr(op, _) =>
          Write([op]);
        case BinExpr(op, _, _, overlay) =>
          ghost var arg := if overlay.Some? then "[" + overlay.value + "]" else "";
          Write([op]);
          if overlay.Some? {
            Write("[" + overlay.value + "]");
          } else {
            assert out == old(out) + [op] + "";
          }
          assert OpLabel(e) == [op] + arg;
          Assoc(old(out), [op], arg);
        case TerExpr(op, _, _, _) =>
          Write([op]);
        case Null =>
          assert out == old(out) + "";
      }
    }

    /** The character part of a node's line (src/lib.rs:94-100). */
    method WriteChar(n: Node)
      modifies this
      ensures out == old(out) + CharLabel(n)
    {
      if n.ideographic.Some? {
        Write([n.ideographic.value]);
        if |n.glyphVariant| != 0 {
          Write("(" + n.glyphVariant + ")");
        }
        Write(" ");
      }
    }

    /** The line of one node (src/lib.rs:75-107). */
    method WriteNodeLine(n: Node, level: nat)
      modifies this
      ensures out == old(out) + NodeLine(n, level)
    {
      ghost var line := "";
      Write(Spaces(4 * level) + "* ");
      line := Spaces(4 * level) + "* ";
      WriteOp(n.subtree);
      Assoc(old(out), line, OpLabel(n.subtree));
      line := line + OpLabel(n.subtree);
      Write("\t");
      Assoc(old(out), line, "\t");
      line := line + "\t";
      WriteChar(n);
      Assoc(old(out), line, CharLabel(n));
      line := line + CharLabel(n);
      if n.strokeSeq.Some? {
        Write(n.strokeSeq.value + " ");
      }
      Assoc(old(out), line, StrokeLabel(n));
      line := line + StrokeLabel(n);
      if |n.glyphHint| > 0 {
        Write("Hint: {" + n.glyphHint + "}");
      }
      Assoc(old(out), line, HintLabel(n));
      line := line + HintLabel(n);
      Write("\n");
      Assoc(old(out), line, "\n");
      line := line + "\n";
      assert line == NodeLine(n, level);
    }

    /** `fmt_tree_r`: the node's line, then each argument at `level + 1`. */
    method FmtTreeR(n: Node, level: nat)
      modifies this
      ensures out == old(out) + FmtTree(n, level)
      decreases n, 1
    {
      WriteNodeLine(n, level);
      WriteArgs(n.subtree, level + 1);
      Assoc(old(out), NodeLine(n, level), FmtArgs(n.subtree, level + 1));
    }

    /** The recursive calls of `fmt_tree_r` (src/lib.rs:109-126). */
    method WriteArgs(e: Expr, level: nat)
      modifies this
      ensures out == old(out) + FmtArgs(e, level)
      decreases e, 0
    {
      match e {
        case UnaryExpr(_, a) =>
          FmtTreeR(a, level);
        case BinExpr(_, a, b, _) =>
          FmtTreeR(a, level);
          FmtTreeR(b, level);
          Assoc(old(out), FmtTree(a, level), FmtTree(b, level));
        case TerExpr(_, a, b, c) =>
          FmtTreeR(a, level);
          FmtTreeR(b, level);
          Assoc(old(out), FmtTree(a, level), FmtTree(b, level));
          FmtTreeR(c, level);
          Assoc(old(out), FmtTree(a, level) + FmtTree(b, level), FmtTree(c, level));
        case Null =>
          assert out == old(out) + "";
      }
    }

    /** `fmt` of `Display for IDS`. */
    method FmtIds(ids: Ids)
      modifies this
      ensures out == old(out) + Display(ids)
    {
      ghost var quoted := if ids.root.ideographic.Some? then "'" + [ids.root.ideographic.value] + "' " else "";
      if ids.root.ideographic.Some? {
        Write("'" + [ids.root.ideographic.value] + "' ");
      }
      assert out == old(out) + quoted;
      Write("\n");
      FmtTreeR(ids.root, 0);
      Assoc(old(out), quoted, "\n");
      Assoc(old(out), quoted + "\n", FmtTree(ids.root, 0));
    }
  }
}
