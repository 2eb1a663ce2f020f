/** Variant-aware expansion of `src/lib.rs`: `extend_var_list`,
    `extend_node`, `create_node` and `create_tree`.

    The Rust recursion stops only when the description table has no
    cycle; here every call carries a `fuel` bound, and running out of it is
    an error of its own (`OutOfFuel`). The tree is a value: overwriting a
    child slot in place becomes building the node with the new child. */
module Expand {
  import opened Wrappers
  import opened Strings
  import opened IdsNode
  import opened ParseTree
  import opened IdsIo

  /** Why `create_node` gives up. */
  datatype Error =
    | QueryFailed            // the table has no description for the character
    | Syntax(message: string) // the description does not parse
    | OutOfFuel              // the depth bound of the model was reached

  /** What `create_node` consults: the description table, the entry order
      of `query`'s fallback, and the grammar's parser. */
  datatype Env = Env(table: Table, pick: Picker, parse: string -> Result<Pair, string>)
  {
    /** The parser only hands back parse trees of the grammar's shape. */
    ghost predicate Valid()
    {
      PickerOk(pick) && forall s :: parse(s).Ok? ==> WellFormed(parse(s).value)
    }
  }

  // ---------------------------------------------------------------------
  // extend_var_list
  // ---------------------------------------------------------------------

  /** `l` without any occurrence of `v`, in the original order. */
  function Without(l: seq<string>, v: string): (r: seq<string>)
    ensures |r| == |l| - Count(v, l)
    ensures v !in r
    ensures forall x | x != v :: Count(x, r) == Count(x, l)
  {
    if |l| == 0 then []
    else
      var rest := Without(l[1..], v);
      if l[0] == v then rest
      else
        assert ([l[0]] + rest)[1..] == rest;
        [l[0]] + rest
  }

  /** `Without` is a filter: it works element by element. */
  lemma {:induction false} WithoutAppend(a: seq<string>, b: seq<string>, v: string)
    ensures Without(a + b, v) == Without(a, v) + Without(b, v)
  {
    if |a| > 0 {
      assert (a + b)[1..] == a[1..] + b;
      WithoutAppend(a[1..], b, v);
    } else {
      assert a + b == b;
    }
  }

  lemma WithoutSingle(x: string, v: string)
    ensures Without([x], v) == if x == v then [] else [x]
  {
    assert [x][1..] == [];
  }

  lemma {:induction false} WithoutAbsent(l: seq<string>, v: string)
    requires v !in l
    ensures Without(l, v) == l
  {
    if |l| > 0 {
      assert l == [l[0]] + l[1..];
      WithoutAbsent(l[1..], v);
    }
  }

  /** `extend_var_list`: `v` first, then the rest of `l` without `v`. */
  function ExtendVarList(l: seq<string>, v: string): (r: seq<string>)
    ensures |r| == 1 + |l| - Count(v, l)
    ensures |r| > 0 && r[0] == v && Count(v, r) == 1
    ensures forall x | x != v :: Count(x, r) == Count(x, l)
  {
    var rest := Without(l, v);
    assert ([v] + rest)[1..] == rest;
    CountZero(v, rest);
    [v] + rest
  }

  /** The tag found first in preference order, if any. */
  function PrefTag(avail: map<string, string>, vars: seq<string>): Option<string>
  {
    match FirstPreferred(avail, vars)
    case Some(i) => Some(vars[i])
    case None => None
  }

  lemma {:induction false} PrefTagWithout(avail: map<string, string>, l: seq<string>, v: string)
    requires v !in avail
    ensures PrefTag(avail, Without(l, v)) == PrefTag(avail, l)
  {
    if |l| > 0 {
      PrefTagWithout(avail, l[1..], v);
      if l[0] != v {
        assert ([l[0]] + Without(l[1..], v))[1..] == Without(l[1..], v);
      }
    }
  }

  /** A child's own variant, when the table knows it for that character,
      is the one its expansion uses. */
  lemma ExtendVarListPrefersVariant(table: Table, pick: Picker, ch: char, l: seq<string>, v: string)
    requires PickerOk(pick) && ch in table && v in table[ch]
    ensures Query(table, pick, ch, ExtendVarList(l, v)) == Some((v, table[ch][v]))
  {
    var r := Query(table, pick, ch, ExtendVarList(l, v));
    if |table[ch]| == 1 {
      assert v in map[r.value.0 := r.value.1];
    } else {
      assert ExtendVarList(l, v)[0] == v;
    }
  }

  /** A variant the character does not have leaves the outcome of the
      lookup as the incoming list alone would give it. */
  lemma ExtendVarListAbsentVariant(table: Table, pick: Picker, ch: char, l: seq<string>, v: string)
    requires PickerOk(pick) && (ch !in table || v !in table[ch])
    ensures Query(table, pick, ch, ExtendVarList(l, v)) == Query(table, pick, ch, l)
  {
    if ch in table && |table[ch]| >= 2 {
      var avail := table[ch];
      var w := Without(l, v);
      PrefTagWithout(avail, l, v);
      assert ExtendVarList(l, v)[1..] == w;
      assert PrefTag(avail, ExtendVarList(l, v)) == PrefTag(avail, w);
    }
  }

  // ---------------------------------------------------------------------
  // create_node / extend_node
  // ---------------------------------------------------------------------

  /** An expanded child: an atom keeps its character, anything else stays. */
  predicate Refines(c: Node, d: Node)
  {
    if Unresolved(c) then d.ideographic == c.ideographic else d == c
  }

  /** What `extend_node` may do to `i`: its own fields, its operator and
      overlay stay; only the immediate child atoms of a binary or ternary
      node are replaced. */
  predicate ExtendsTo(i: Node, o: Node)
  {
    && o.ideographic == i.ideographic
    && o.strokeSeq == i.strokeSeq
    && o.glyphHint == i.glyphHint
    && o.glyphVariant == i.glyphVariant
    && match i.subtree
       case BinExpr(op, a, b, x) =>
         o.subtree.BinExpr? && o.subtree.op == op && o.subtree.opArg == x
         && Refines(a, o.subtree.arg1) && Refines(b, o.subtree.arg2)
       case TerExpr(op, a, b, c) =>
         o.subtree.TerExpr? && o.subtree.op == op
         && Refines(a, o.subtree.arg1) && Refines(b, o.subtree.arg2) && Refines(c, o.subtree.arg3)
       case _ => o.subtree == i.subtree
  }

  /** `create_node(ch, vars)`. */
  function Create(env: Env, ch: char, vars: seq<string>, fuel: nat): (r: Result<Node, Error>)
    requires env.Valid()
    ensures r.Ok? ==> r.value.ideographic == Some(ch)
    ensures r.Ok? ==>
      Query(env.table, env.pick, ch, vars).Some?
      && r.value.glyphVariant == Query(env.table, env.pick, ch, vars).value.0
    ensures fuel > 0 && Query(env.table, env.pick, ch, vars).None? ==> r == Err(QueryFailed)
    decreases fuel, 0
  {
    if fuel == 0 then Err(OutOfFuel)
    else
      match Query(env.table, env.pick, ch, vars)
      case None => Err(QueryFailed)
      case Some((v, s)) =>
        match env.parse(s)
        case Err(msg) => Err(Syntax(msg))
        case Ok(pair) =>
          var root := ParseNode(pair).(ideographic := Some(ch), glyphVariant := v);
          Extend(env, root, vars, fuel - 1)
  }

  /** The `check_extend` closure of `extend_node`: an atom is replaced by
      its own expansion under `vars` reordered for its variant. */
  function CheckExtend(env: Env, j: Node, vars: seq<string>, fuel: nat): (r: Result<Node, Error>)
    requires env.Valid()
    ensures r.Ok? ==> Refines(j, r.value)
    decreases fuel, 1
  {
    if Unresolved(j) then Create(env, j.ideographic.value, ExtendVarList(vars, j.glyphVariant), fuel)
    else Ok(j)
  }

  /** `extend_node(i, vars)`: the first failing child aborts. */
  function Extend(env: Env, i: Node, vars: seq<string>, fuel: nat): (r: Result<Node, Error>)
    requires env.Valid()
    ensures r.Ok? ==> ExtendsTo(i, r.value)
    decreases fuel, 2
  {
    match i.subtree
    case BinExpr(op, a, b, x) =>
      var a' :- CheckExtend(env, a, vars, fuel);
      var b' :- CheckExtend(env, b, vars, fuel);
      Ok(i.(subtree := BinExpr(op, a', b', x)))
    case TerExpr(op, a, b, c) =>
      var a' :- CheckExtend(env, a, vars, fuel);
      var b' :- CheckExtend(env, b, vars, fuel);
      var c' :- CheckExtend(env, c, vars, fuel);
      Ok(i.(subtree := TerExpr(op, a', b', c')))
    case _ => Ok(i)
  }

  /** `create_tree`. */
  function CreateTree(env: Env, ch: char, vars: seq<string>, fuel: nat): (r: Result<Ids, Error>)
    requires env.Valid()
    ensures r.Ok? <==> Create(env, ch, vars, fuel).Ok?
    ensures r.Ok? ==> r.value.root == Create(env, ch, vars, fuel).value
    ensures r.Ok? ==> r.value.root.ideographic == Some(ch)
    ensures r.Err? ==> r.error == Create(env, ch, vars, fuel).error
  {
    var root :- Create(env, ch, vars, fuel);
    Ok(Ids(root))
  }

  /** The outcome of each child slot, in argument order. */
  function SlotResults(env: Env, cs: seq<Node>, vars: seq<string>, fuel: nat): (r: seq<Result<Node, Error>>)
    requires env.Valid()
    ensures |r| == |cs|
    ensures forall k | 0 <= k < |cs| :: r[k] == CheckExtend(env, cs[k], vars, fuel)
  {
    seq(|cs|, k requires 0 <= k < |cs| => CheckExtend(env, cs[k], vars, fuel))
  }

  /** A binary or ternary node expands exactly when every child slot does;
      the expanded children are the slots' results, and a failure is the
      failure of the first slot that fails. */
  lemma ExtendChildren(env: Env, i: Node, vars: seq<string>, fuel: nat)
    requires env.Valid() && (i.subtree.BinExpr? || i.subtree.TerExpr?)
    ensures var rs := SlotResults(env, Children(i.subtree), vars, fuel);
      var r := Extend(env, i, vars, fuel);
      && (r.Ok? <==> forall k | 0 <= k < |rs| :: rs[k].Ok?)
      && (r.Ok? ==> |Children(r.value.subtree)| == |rs|
                    && forall k | 0 <= k < |rs| :: Children(r.value.subtree)[k] == rs[k].value)
      && (r.Err? ==> exists k | 0 <= k < |rs| ::
                       rs[k] == Err(r.error) && forall j | 0 <= j < k :: rs[j].Ok?)
  {
    if i.subtree.BinExpr? {
      ExtendBin(env, i, vars, fuel);
    } else {
      ExtendTer(env, i, vars, fuel);
    }
  }

  lemma ExtendBin(env: Env, i: Node, vars: seq<string>, fuel: nat)
    requires env.Valid() && i.subtree.BinExpr?
    ensures var rs := SlotResults(env, Children(i.subtree), vars, fuel);
      var r := Extend(env, i, vars, fuel);
      && (r.Ok? <==> forall k | 0 <= k < |rs| :: rs[k].Ok?)
      && (r.Ok? ==> |Children(r.value.subtree)| == |rs|
                    && forall k | 0 <= k < |rs| :: Children(r.value.subtree)[k] == rs[k].value)
      && (r.Err? ==> exists k | 0 <= k < |rs| ::
                       rs[k] == Err(r.error) && forall j | 0 <= j < k :: rs[j].Ok?)
  {
    var rs := SlotResults(env, Children(i.subtree), vars, fuel);
    var r := Extend(env, i, vars, fuel);
    if rs[0].Err? {
      assert rs[0] == Err(r.error);
    } else if rs[1].Err? {
      assert rs[1] == Err(r.error) && rs[0].Ok?;
    }
  }

  lemma ExtendTer(env: Env, i: Node, vars: seq<string>, fuel: nat)
    requires env.Valid() && i.subtree.TerExpr?
    ensures var rs := SlotResults(env, Children(i.subtree), vars, fuel);
      var r := Extend(env, i, vars, fuel);
      && (r.Ok? <==> forall k | 0 <= k < |rs| :: rs[k].Ok?)
      && (r.Ok? ==> |Children(r.value.subtree)| == |rs|
                    && forall k | 0 <= k < |rs| :: Children(r.value.subtree)[k] == rs[k].value)
      && (r.Err? ==> exists k | 0 <= k < |rs| ::
                       rs[k] == Err(r.error) && forall j | 0 <= j < k :: rs[j].Ok?)
  {
    var rs := SlotResults(env, Children(i.subtree), vars, fuel);
    var r := Extend(env, i, vars, fuel);
    if rs[0].Err? {
      assert rs[0] == Err(r.error);
    } else if rs[1].Err? {
      assert rs[1] == Err(r.error) && rs[0].Ok?;
    } else if rs[2].Err? {
      assert rs[2] == Err(r.error) && rs[0].Ok? && rs[1].Ok?;
    }
  }

  /** Which children `extend_node` replaces: in a binary or ternary node,
      each immediate child atom becomes its `create_node` result under the
      parent's incoming list reordered for the child's own variant; every
      other child (a stroke leaf, an operator node with its own atoms) stays
      as it is, and so does everything below a unary node or a leaf. */
  lemma ExtendSlots(env: Env, i: Node, vars: seq<string>, fuel: nat)
    requires env.Valid() && Extend(env, i, vars, fuel).Ok?
    ensures var cs := Children(i.subtree);
      var ds := Children(Extend(env, i, vars, fuel).value.subtree);
      && |ds| == |cs|
      && (!(i.subtree.BinExpr? || i.subtree.TerExpr?) ==> Extend(env, i, vars, fuel).value == i)
      && forall k | 0 <= k < |cs| ::
           && (!Unresolved(cs[k]) ==> ds[k] == cs[k])
           && (Unresolved(cs[k]) && !i.subtree.UnaryExpr? ==>
                 Create(env, cs[k].ideographic.value, ExtendVarList(vars, cs[k].glyphVariant), fuel) == Ok(ds[k]))
  {
    if i.subtree.BinExpr? || i.subtree.TerExpr? {
      ExtendChildren(env, i, vars, fuel);
      var rs := SlotResults(env, Children(i.subtree), vars, fuel);
      assert forall k | 0 <= k < |rs| :: rs[k] == CheckExtend(env, Children(i.subtree)[k], vars, fuel);
    }
  }

  /** `create_node` fails when any expansion below it fails: the error of
      `extend_node` is the error of the whole call, never a partial tree. */
  lemma CreatePropagates(env: Env, ch: char, vars: seq<string>, fuel: nat)
    requires env.Valid() && fuel > 0 && Query(env.table, env.pick, ch, vars).Some?
    requires env.parse(Query(env.table, env.pick, ch, vars).value.1).Ok?
    ensures var (v, s) := Query(env.table, env.pick, ch, vars).value;
      var root := ParseNode(env.parse(s).value).(ideographic := Some(ch), glyphVariant := v);
      && (Extend(env, root, vars, fuel - 1).Err? ==> Create(env, ch, vars, fuel) == Err(Extend(env, root, vars, fuel - 1).error))
      && (Extend(env, root, vars, fuel - 1).Ok? ==>
            Create(env, ch, vars, fuel).Ok? && ExtendsTo(root, Create(env, ch, vars, fuel).value))
  {
  }

  /** A child expanded with a variant the table has for its character
      carries that variant. */
  lemma CheckExtendKeepsVariant(env: Env, j: Node, vars: seq<string>, fuel: nat)
    requires env.Valid() && Unresolved(j) && CheckExtend(env, j, vars, fuel).Ok?
    requires j.ideographic.value in env.table && j.glyphVariant in env.table[j.ideographic.value]
    ensures CheckExtend(env, j, vars, fuel).value.glyphVariant == j.glyphVariant
  {
    ExtendVarListPrefersVariant(env.table, env.pick, j.ideographic.value, vars, j.glyphVariant);
  }

  // ---------------------------------------------------------------------
  // The fuel bound only cuts off
  // ---------------------------------------------------------------------

  /** An outcome reached within some fuel is the outcome with any more. */
  lemma CreateFuel(env: Env, ch: char, vars: seq<string>, f: nat, g: nat)
    requires env.Valid() && f <= g && Create(env, ch, vars, f) != Err(OutOfFuel)
    ensures Create(env, ch, vars, g) == Create(env, ch, vars, f)
    decreases f, 0
  {
    match Query(env.table, env.pick, ch, vars)
    case None =>
    case Some((v, s)) =>
      match env.parse(s)
      case Err(_) =>
      case Ok(pair) =>
        var root := ParseNode(pair).(ideographic := Some(ch), glyphVariant := v);
        ExtendFuel(env, root, vars, f - 1, g - 1);
  }

  lemma CheckExtendFuel(env: Env, j: Node, vars: seq<string>, f: nat, g: nat)
    requires env.Valid() && f <= g && CheckExtend(env, j, vars, f) != Err(OutOfFuel)
    ensures CheckExtend(env, j, vars, g) == CheckExtend(env, j, vars, f)
    decreases f, 1
  {
    if Unresolved(j) {
      CreateFuel(env, j.ideographic.value, ExtendVarList(vars, j.glyphVariant), f, g);
    }
  }

  lemma ExtendFuel(env: Env, i: Node, vars: seq<string>, f: nat, g: nat)
    requires env.Valid() && f <= g && Extend(env, i, vars, f) != Err(OutOfFuel)
    ensures Extend(env, i, vars, g) == Extend(env, i, vars, f)
    decreases f, 2
  {
    match i.subtree
    case BinExpr(op, a, b, x) =>
      CheckExtendFuel(env, a, vars, f, g);
      if CheckExtend(env, a, vars, f).Ok? {
        CheckExtendFuel(env, b, vars, f, g);
      }
    case TerExpr(op, a, b, c) =>
      CheckExtendFuel(env, a, vars, f, g);
      if CheckExtend(env, a, vars, f).Ok? {
        CheckExtendFuel(env, b, vars, f, g);
        if CheckExtend(env, b, vars, f).Ok? {
          CheckExtendFuel(env, c, vars, f, g);
        }
      }
    case _ =>
  }

  // ---------------------------------------------------------------------
  // The Rust procedures, slot by slot
  // ---------------------------------------------------------------------

  /** `create_node`: look up, parse, stamp the root, expand it. */
  method CreateNode(env: Env, ch: char, vars: seq<string>, fuel: nat) returns (r: Result<Node, Error>)
    requires env.Valid()
    ensures r == Create(env, ch, vars, fuel)
    decreases fuel, 0
  {
    if fuel == 0 {
      return Err(OutOfFuel);
    }
    var q := Query(env.table, env.pick, ch, vars);
    if q.None? {
      return Err(QueryFailed);
    }
    var (v, s) := q.value;
    var parsed := env.parse(s);
    if parsed.Err? {
      return Err(Syntax(parsed.error));
    }
    var root := ParseNode(parsed.value);
    root := root.(ideographic := Some(ch));
    root := root.(glyphVariant := v);
    var expanded, e := ExtendNode(env, root, vars, fuel - 1);
    if e.Err? {
      return Err(e.error);
    }
    r := Ok(expanded);
  }

  /** The `check_extend` closure: the new content of one child slot. */
  method CheckExtendNode(env: Env, j: Node, vars: seq<string>, fuel: nat) returns (r: Result<Node, Error>)
    requires env.Valid()
    ensures r == CheckExtend(env, j, vars, fuel)
    decreases fuel, 1
  {
    r := Ok(j);
    if j.ideographic.Some? && j.subtree.Null? {
      var node :- CreateNode(env, j.ideographic.value, ExtendVarList(vars, j.glyphVariant), fuel);
      r := Ok(node);
    }
  }

  /** `o` is `i` with the child slots before `k` overwritten by their
      expansions and the slots from `k` on untouched. */
  predicate OverwrittenBefore(env: Env, i: Node, o: Node, vars: seq<string>, fuel: nat, k: nat)
    requires env.Valid()
  {
    var cs := Children(i.subtree);
    var ds := Children(o.subtree);
    && |ds| == |cs| && k <= |cs|
    && (forall j | 0 <= j < k :: CheckExtend(env, cs[j], vars, fuel) == Ok(ds[j]))
    && (forall j | k <= j < |cs| :: ds[j] == cs[j])
  }

  /** `extend_node`: the child slots are overwritten one after another; on
      a failure, `o` is the node with the slots before the failing one
      already overwritten, as the Rust caller would see it. */
  method ExtendNode(env: Env, i: Node, vars: seq<string>, fuel: nat) returns (o: Node, r: Result<(), Error>)
    requires env.Valid()
    ensures r.Ok? ==> Extend(env, i, vars, fuel) == Ok(o)
    ensures r.Err? ==> Extend(env, i, vars, fuel) == Err(r.error)
    ensures r.Err? ==>
      exists k | 0 <= k < |Children(i.subtree)| ::
        CheckExtend(env, Children(i.subtree)[k], vars, fuel) == Err(r.error)
        && OverwrittenBefore(env, i, o, vars, fuel, k)
    ensures ExtendsTo(i, o)
    decreases fuel, 3
  {
    if i.subtree.BinExpr? {
      o, r := ExtendBinNode(env, i, vars, fuel);
    } else if i.subtree.TerExpr? {
      o, r := ExtendTerNode(env, i, vars, fuel);
    } else {
      o, r := i, Ok(());
    }
  }

  /** What `ExtendNode` promises, for its two cases below. */
  ghost predicate ExtendNodeOutcome(env: Env, i: Node, vars: seq<string>, fuel: nat, o: Node, r: Result<(), Error>)
    requires env.Valid()
  {
    && (r.Ok? ==> Extend(env, i, vars, fuel) == Ok(o))
    && (r.Err? ==> Extend(env, i, vars, fuel) == Err(r.error))
    && (r.Err? ==>
          exists k | 0 <= k < |Children(i.subtree)| ::
            CheckExtend(env, Children(i.subtree)[k], vars, fuel) == Err(r.error)
            && OverwrittenBefore(env, i, o, vars, fuel, k))
    && ExtendsTo(i, o)
  }

  /** The binary arm of `extend_node`. */
  method ExtendBinNode(env: Env, i: Node, vars: seq<string>, fuel: nat) returns (o: Node, r: Result<(), Error>)
    requires env.Valid() && i.subtree.BinExpr?
    ensures ExtendNodeOutcome(env, i, vars, fuel, o, r)
    decreases fuel, 2
  {
    var BinExpr(op, a, b, x) := i.subtree;
    o := i;
    var ra := CheckExtendNode(env, a, vars, fuel);
    if ra.Err? {
      assert OverwrittenBefore(env, i, o, vars, fuel, 0);
      return o, Err(ra.error);
    }
    o := o.(subtree := BinExpr(op, ra.value, b, x));
    var rb := CheckExtendNode(env, b, vars, fuel);
    if rb.Err? {
      assert Children(i.subtree)[1] == b;
      assert OverwrittenBefore(env, i, o, vars, fuel, 1);
      return o, Err(rb.error);
    }
    o := o.(subtree := BinExpr(op, ra.value, rb.value, x));
    r := Ok(());
  }

  /** The ternary arm of `extend_node`. */
  method ExtendTerNode(env: Env, i: Node, vars: seq<string>, fuel: nat) returns (o: Node, r: Result<(), Error>)
    requires env.Valid() && i.subtree.TerExpr?
    ensures ExtendNodeOutcome(env, i, vars, fuel, o, r)
    decreases fuel, 2
  {
    var TerExpr(op, a, b, c) := i.subtree;
    o := i;
    var ra := CheckExtendNode(env, a, vars, fuel);
    if ra.Err? {
      assert OverwrittenBefore(env, i, o, vars, fuel, 0);
      return o, Err(ra.error);
    }
    o := o.(subtree := TerExpr(op, ra.value, b, c));
    var rb := CheckExtendNode(env, b, vars, fuel);
    if rb.Err? {
      assert Children(i.subtree)[1] == b;
      assert OverwrittenBefore(env, i, o, vars, fuel, 1);
      return o, Err(rb.error);
    }
    o := o.(subtree := TerExpr(op, ra.value, rb.value, c));
    var rc := CheckExtendNode(env, c, vars, fuel);
    if rc.Err? {
      assert Children(i.subtree)[2] == c;
      assert OverwrittenBefore(env, i, o, vars, fuel, 2);
      return o, Err(rc.error);
    }
    o := o.(subtree := TerExpr(op, ra.value, rb.value, rc.value));
    r := Ok(());
  }
}
