/** Expression trees in the bytes of a pool. */
module TreePool {
  import opened Pools
  import opened Iml
  import opened Layout
  import opened Machine

  function ExpressionAt(mem: seq<byte>, h: nat): Expression
    requires h + SIZEOF_EXPRESSION <= |mem|
  {
    ParseExpression(mem[h..h + SIZEOF_EXPRESSION])
  }

  /** The expression e, with children at handles in [lo, limit), stands for the tree t. Every child is
      a complete record strictly below its parent, and the blank right child of a negation is not
      looked at. */
  ghost predicate Represents(mem: seq<byte>, lo: nat, limit: nat, e: Expression, t: Tree)
    decreases t, 0
  {
    limit <= |mem| &&
    match t
    case Leaf(o) => e == Value(o)
    case Neg(a) =>
      && e.Compound? && e.op == NEG && Child(mem, lo, limit, e.left, a)
    case Node(op, a, b) =>
      && e.Compound? && e.op == op && op != NEG
      && Child(mem, lo, limit, e.left, a) && Child(mem, lo, limit, e.right, b)
  }

  ghost predicate Child(mem: seq<byte>, lo: nat, limit: nat, h: nat, t: Tree)
    requires limit <= |mem|
    decreases t, 1
  {
    lo <= h && h + SIZEOF_EXPRESSION <= limit && Represents(mem, lo, h, ExpressionAt(mem, h), t)
  }

  // ---- evaluation on handles ----

  datatype Option = None | Some(value: nat)

  /** Evaluation in the pool, with the handle as the measure: it gives up on a child that is not a
      complete record below its parent. */
  function EvalAt(mem: seq<byte>, limit: nat, e: Expression, s: State, w: nat): Option
    requires StateOk(s)
    decreases limit
  {
    match e
    case Value(o) => Some(EvalOperand(o, s, w))
    case Compound(op, _, _, left, right) =>
      if left + SIZEOF_EXPRESSION > limit || left + SIZEOF_EXPRESSION > |mem| then None
      else
        var a := EvalAt(mem, left, ExpressionAt(mem, left), s, w);
        if a.None? then None
        else if op == NEG then Some(EvalNeg(a.value, w))
        else if right + SIZEOF_EXPRESSION > limit || right + SIZEOF_EXPRESSION > |mem| then None
        else
          var b := EvalAt(mem, right, ExpressionAt(mem, right), s, w);
          if b.None? then None else Some(EvalOp(op, a.value, b.value, w))
  }

  /** Evaluating in the pool is evaluating the tree. */
  lemma {:induction false} EvalRepresented(mem: seq<byte>, lo: nat, limit: nat, e: Expression, t: Tree, s: State,
                                            w: nat)
    requires StateOk(s) && Represents(mem, lo, limit, e, t)
    ensures EvalAt(mem, limit, e, s, w) == Some(EvalTree(t, s, w))
    decreases t
  {
    match t
    case Leaf(o) =>
    case Neg(a) => EvalRepresented(mem, lo, e.left, ExpressionAt(mem, e.left), a, s, w);
    case Node(op, a, b) =>
      EvalRepresented(mem, lo, e.left, ExpressionAt(mem, e.left), a, s, w);
      EvalRepresented(mem, lo, e.right, ExpressionAt(mem, e.right), b, s, w);
  }

  // ---- running an expression: its value and its flags ----

  datatype Outcome = Failed | Outcome(value: nat, flags: Flags)

  /** The flags are those of the operation at the root, on the values of its children. */
  function RunExpression(mem: seq<byte>, limit: nat, e: Expression, s: State, w: nat): Outcome
    requires StateOk(s)
  {
    var v := EvalAt(mem, limit, e, s, w);
    if v.None? then Failed
    else if e.Value? || e.op == NEG then Outcome(v.value, ValueFlags(v.value, w))
    else
      var a := EvalAt(mem, e.left, ExpressionAt(mem, e.left), s, w);
      var b := EvalAt(mem, e.right, ExpressionAt(mem, e.right), s, w);
      Outcome(v.value, OpFlags(e.op, a.value, b.value, w))
  }

  /** Running an expression in the pool gives the value and the flags of its tree. */
  lemma RunRepresented(mem: seq<byte>, lo: nat, limit: nat, e: Expression, t: Tree, s: State, w: nat)
    requires StateOk(s) && Represents(mem, lo, limit, e, t)
    ensures RunExpression(mem, limit, e, s, w) == Outcome(EvalTree(t, s, w), TreeFlags(t, s, w))
  {
    hide OpFlags, EvalOp, EvalOperand, EvalNeg, ExpressionAt, ValueFlags;
    EvalRepresented(mem, lo, limit, e, t, s, w);
    match t
    case Leaf(_) =>
    case Neg(_) =>
    case Node(_, a, b) =>
      EvalRepresented(mem, lo, e.left, ExpressionAt(mem, e.left), a, s, w);
      EvalRepresented(mem, lo, e.right, ExpressionAt(mem, e.right), b, s, w);
  }

  /** What an expression stands for depends only on the bytes of its own tree. */
  lemma {:induction false} RepresentsLocal(mem: seq<byte>, mem': seq<byte>, lo: nat, limit: nat, e: Expression, t: Tree)
    requires Represents(mem, lo, limit, e, t)
    requires lo <= limit <= |mem'| && mem[lo..limit] == mem'[lo..limit]
    ensures Represents(mem', lo, limit, e, t)
    decreases t, 0
  {
    match t
    case Leaf(o) =>
    case Neg(a) => ChildLocal(mem, mem', lo, limit, e.left, a);
    case Node(op, a, b) =>
      ChildLocal(mem, mem', lo, limit, e.left, a);
      ChildLocal(mem, mem', lo, limit, e.right, b);
  }

  lemma {:induction false} ChildLocal(mem: seq<byte>, mem': seq<byte>, lo: nat, limit: nat, h: nat, t: Tree)
    requires limit <= |mem| && Child(mem, lo, limit, h, t)
    requires lo <= limit <= |mem'| && mem[lo..limit] == mem'[lo..limit]
    ensures Child(mem', lo, limit, h, t)
    decreases t, 1
  {
    SliceEqual(mem, mem', lo, limit, h, h + SIZEOF_EXPRESSION);
    SliceEqual(mem, mem', lo, limit, lo, h);
    RepresentsLocal(mem, mem', lo, h, ExpressionAt(mem, h), t);
  }

  lemma SliceEqual(m: seq<byte>, m': seq<byte>, lo: nat, hi: nat, a: nat, b: nat)
    requires lo <= a <= b <= hi <= |m| && hi <= |m'| && m[lo..hi] == m'[lo..hi]
    ensures m[a..b] == m'[a..b]
  {
    forall i | 0 <= i < b - a
      ensures m[a..b][i] == m'[a..b][i]
    {
      assert m[lo..hi][a + i - lo] == m'[lo..hi][a + i - lo];
    }
  }

  lemma RepresentsWiden(mem: seq<byte>, lo: nat, limit: nat, limit': nat, e: Expression, t: Tree)
    requires Represents(mem, lo, limit, e, t) && limit <= limit' <= |mem|
    ensures Represents(mem, lo, limit', e, t)
  {
  }

  // ---- building ----

  /** What the program has pushed, and the expression it holds, when it has built a tree. */
  datatype Built = Built(nodes: seq<Expression>, expr: Expression)

  /** The handle of the i-th expression pushed from base on. */
  function HandleAt(base: nat, i: nat): nat {
    base + SIZEOF_EXPRESSION * i
  }

  /** The compound constructor pushes left, then right. */
  function Join(b: Built, base: nat, left: Expression, op: MathOp, right: Expression): Built {
    var n := |b.nodes|;
    Built(b.nodes + [left, right], Compound(op, false, false, HandleAt(base, n), HandleAt(base, n + 1)))
  }

  function Build(t: Tree, nodes: seq<Expression>, base: nat): (r: Built)
    ensures |r.nodes| == |nodes| + Count(t)
    decreases t
  {
    match t
    case Leaf(o) => Built(nodes, Value(o))
    case Neg(a) =>
      var b := Build(a, nodes, base);
      Join(b, base, b.expr, NEG, BLANK)
    case Node(op, l, r) =>
      var b := Build(l, nodes, base);
      var c := Build(r, b.nodes, base);
      Join(c, base, b.expr, op, c.expr)
  }

  predicate TreeFits(t: Tree) {
    match t
    case Leaf(o) => OperandOk(o)
    case Neg(a) => TreeFits(a)
    case Node(_, a, b) => TreeFits(a) && TreeFits(b)
  }

  predicate NodesOk(nodes: seq<Expression>) {
    forall e :: e in nodes ==> ExpressionOk(e)
  }

  lemma {:induction false} BuildOk(t: Tree, nodes: seq<Expression>, base: nat)
    requires TreeFits(t) && NodesOk(nodes)
    requires HandleAt(base, |nodes| + Count(t)) <= Pow256(4)
    ensures NodesOk(Build(t, nodes, base).nodes) && ExpressionOk(Build(t, nodes, base).expr)
    ensures nodes <= Build(t, nodes, base).nodes
    decreases t
  {
    match t
    case Leaf(o) =>
    case Neg(a) => BuildOk(a, nodes, base);
    case Node(op, l, r) =>
      BuildOk(l, nodes, base);
      BuildOk(r, Build(l, nodes, base).nodes, base);
  }

  /** The nodes of a build lie in the pool from base on. */
  ghost predicate Holds(mem: seq<byte>, base: nat, nodes: seq<Expression>) {
    && HandleAt(base, |nodes|) <= |mem|
    && forall i :: 0 <= i < |nodes| ==> ExpressionAt(mem, HandleAt(base, i)) == nodes[i]
  }

  lemma PushedChild(mem: seq<byte>, base: nat, all: seq<Expression>, i: nat, limit: nat, t: Tree)
    requires Holds(mem, base, all) && i < |all|
    requires Represents(mem, base, limit, all[i], t) && limit <= HandleAt(base, i)
    ensures Child(mem, base, HandleAt(base, i + 1), HandleAt(base, i), t)
  {
    RepresentsWiden(mem, base, limit, HandleAt(base, i), all[i], t);
  }

  lemma ChildWiden(mem: seq<byte>, lo: nat, limit: nat, limit': nat, h: nat, t: Tree)
    requires limit <= limit' <= |mem| && Child(mem, lo, limit, h, t)
    ensures Child(mem, lo, limit', h, t)
  {
  }

  lemma JoinRepresents(mem: seq<byte>, base: nat, all: seq<Expression>, n: nat, j: nat, op: MathOp, l: Tree, r: Tree)
    requires Holds(mem, base, all) && j <= n && n + 2 <= |all| && op != NEG
    requires Represents(mem, base, HandleAt(base, j), all[n], l)
    requires Represents(mem, base, HandleAt(base, n), all[n + 1], r)
    ensures Represents(mem, base, HandleAt(base, n + 2),
                       Compound(op, false, false, HandleAt(base, n), HandleAt(base, n + 1)), Node(op, l, r))
  {
    PushedChild(mem, base, all, n, HandleAt(base, j), l);
    ChildWiden(mem, base, HandleAt(base, n + 1), HandleAt(base, n + 2), HandleAt(base, n), l);
    PushedChild(mem, base, all, n + 1, HandleAt(base, n), r);
  }

  lemma NegRepresents(mem: seq<byte>, base: nat, all: seq<Expression>, n: nat, a: Tree)
    requires Holds(mem, base, all) && n + 2 <= |all|
    requires Represents(mem, base, HandleAt(base, n), all[n], a)
    ensures Represents(mem, base, HandleAt(base, n + 2),
                       Compound(NEG, false, false, HandleAt(base, n), HandleAt(base, n + 1)), Neg(a))
  {
    PushedChild(mem, base, all, n, HandleAt(base, n), a);
    ChildWiden(mem, base, HandleAt(base, n + 1), HandleAt(base, n + 2), HandleAt(base, n), a);
  }

  lemma LeafRepresents(mem: seq<byte>, base: nat, o: Operand, nodes: seq<Expression>, all: seq<Expression>)
    requires Build(Leaf(o), nodes, base).nodes <= all && Holds(mem, base, all)
    ensures Build(Leaf(o), nodes, base) == Built(nodes, Value(o))
    ensures Represents(mem, base, HandleAt(base, |nodes|), Value(o), Leaf(o))
  {
  }

  /** Whatever tree is built, the pool then represents it. */
  lemma {:induction false} BuildRepresents(mem: seq<byte>, base: nat, t: Tree, nodes: seq<Expression>,
                                            all: seq<Expression>)
    requires TreeOk(t) && Build(t, nodes, base).nodes <= all && Holds(mem, base, all)
    ensures Represents(mem, base, HandleAt(base, |Build(t, nodes, base).nodes|), Build(t, nodes, base).expr, t)
    decreases t
  {
    hide Build, Represents, Holds;
    match t
    case Leaf(o) => LeafRepresents(mem, base, o, nodes, all);
    case Neg(a) =>
      NegOrder(a, nodes, base);
      BuildRepresents(mem, base, a, nodes, all);
      NegRepresents(mem, base, all, |Build(a, nodes, base).nodes|, a);
    case Node(op, l, r) =>
      var b := Build(l, nodes, base);
      BuildOrder(op, l, r, nodes, base);
      BuildRepresents(mem, base, l, nodes, all);
      BuildRepresents(mem, base, r, b.nodes, all);
      JoinRepresents(mem, base, all, |Build(r, b.nodes, base).nodes|, |b.nodes|, op, l, r);
  }

  lemma NegOrder(a: Tree, nodes: seq<Expression>, base: nat)
    ensures var b := Build(a, nodes, base);
            var all := Build(Neg(a), nodes, base).nodes;
            && b.nodes <= all && |all| == |b.nodes| + 2 && all[|b.nodes|] == b.expr
            && Build(Neg(a), nodes, base).expr
               == Compound(NEG, false, false, HandleAt(base, |b.nodes|), HandleAt(base, |b.nodes| + 1))
  {
  }

  /** A node's records: those of the left tree, then those of the right, then the two roots. */
  lemma BuildOrder(op: MathOp, l: Tree, r: Tree, nodes: seq<Expression>, base: nat)
    ensures var b := Build(l, nodes, base);
            var c := Build(r, b.nodes, base);
            var all := Build(Node(op, l, r), nodes, base).nodes;
            && b.nodes <= c.nodes <= all && |all| == |c.nodes| + 2
            && all[|c.nodes|] == b.expr && all[|c.nodes| + 1] == c.expr
            && Build(Node(op, l, r), nodes, base).expr
               == Compound(op, false, false, HandleAt(base, |c.nodes|), HandleAt(base, |c.nodes| + 1))
  {
    BuildExtends(r, Build(l, nodes, base).nodes, base);
  }

  lemma {:induction false} BuildExtends(t: Tree, nodes: seq<Expression>, base: nat)
    ensures nodes <= Build(t, nodes, base).nodes
    decreases t
  {
    match t
    case Leaf(o) =>
    case Neg(a) => BuildExtends(a, nodes, base);
    case Node(op, l, r) =>
      BuildExtends(l, nodes, base);
      BuildExtends(r, Build(l, nodes, base).nodes, base);
  }

  // ---- what one word leaves in the pool ----

  /** A decoded word: an instruction without a tree, or a tree and the instruction it goes in. */
  datatype Item = Plain(instr: Instruction) | WithTree(tree: Tree, frame: Instruction)

  datatype Emission = Emission(nodes: seq<Expression>, instr: Instruction)

  predicate ItemOk(it: Item) {
    match it
    case Plain(instr) => InstructionOk(instr) && instr.next == 0
    case WithTree(t, frame) =>
      && TreeFits(t) && TreeOk(t) && Count(t) <= 6
      && frame.body.Math? && InstructionOk(frame) && frame.next == 0
  }

  function ItemCount(it: Item): nat {
    match it
    case Plain(_) => 0
    case WithTree(t, _) => Count(t)
  }

  function SetExpression(frame: Instruction, e: Expression): Instruction
    requires frame.body.Math?
  {
    frame.(body := frame.body.(expr := e))
  }

  /** The records of a word when the pool's position is base, and its instruction. */
  function EmitItem(it: Item, base: nat): Emission
    requires it.WithTree? ==> it.frame.body.Math?
  {
    match it
    case Plain(instr) => Emission([], instr)
    case WithTree(t, frame) =>
      var b := Build(t, [], base);
      Emission(b.nodes, SetExpression(frame, b.expr))
  }
}
