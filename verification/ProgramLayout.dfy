/** Where the records of a whole buffer lie, and what following `next` and evaluating trees finds
    there. Nothing here depends on what the words are, only on what they are decoded to. */
module ProgramLayout {
  import opened Pools
  import opened Iml
  import opened Layout
  import opened Machine
  import opened TreePool
  import opened Records

  /** At most six expressions and one instruction for each word. */
  const MAX_PER_WORD: nat := 192

  /** Decoded words whose records cannot overflow a u32. */
  predicate ItemsOk(items: seq<Item>) {
    && MAX_PER_WORD * |items| <= LIMIT
    && forall k :: 0 <= k < |items| ==> ItemOk(items[k])
  }

  // ---- where the records go ----

  /** The position of the pool before word k is decoded. */
  function Base(items: seq<Item>, k: nat): (r: nat)
    requires ItemsOk(items) && k <= |items|
    ensures r <= MAX_PER_WORD * k
  {
    if k == 0 then 0 else HandleAt(Base(items, k - 1), ItemCount(items[k - 1])) + SIZEOF_INSTRUCTION
  }

  /** The handle of the instruction record of word k. */
  function InstrHandle(items: seq<Item>, k: nat): (r: nat)
    requires ItemsOk(items) && k < |items|
    ensures r + SIZEOF_INSTRUCTION == Base(items, k + 1) <= LIMIT
    ensures Base(items, k) <= r
  {
    HandleAt(Base(items, k), ItemCount(items[k]))
  }

  function NextOf(items: seq<Item>, k: nat): (r: nat)
    requires ItemsOk(items) && k < |items|
    ensures r <= LIMIT
  {
    if k + 1 < |items| then InstrHandle(items, k + 1) else 0
  }

  lemma EmitOk(it: Item, base: nat)
    requires ItemOk(it) && HandleAt(base, 6) <= LIMIT
    ensures var e := EmitItem(it, base);
            NodesOk(e.nodes) && |e.nodes| == ItemCount(it) && InstructionOk(e.instr) && e.instr.next == 0
  {
    if it.WithTree? {
      assert Pow256(4) == U32;
      BuildOk(it.tree, [], base);
    }
  }

  function EmissionOf(items: seq<Item>, k: nat): (e: Emission)
    requires ItemsOk(items) && k < |items|
    ensures NodesOk(e.nodes) && |e.nodes| == ItemCount(items[k]) && InstructionOk(e.instr) && e.instr.next == 0
  {
    EmitOk(items[k], Base(items, k));
    EmitItem(items[k], Base(items, k))
  }

  /** The records of an emission, its instruction with the given `next`. */
  function RecordsOf(e: Emission, next: nat): (r: seq<byte>)
    requires NodesOk(e.nodes) && InstructionOk(e.instr) && next <= LIMIT
    ensures |r| == HandleAt(SIZEOF_INSTRUCTION, |e.nodes|)
  {
    SerAll(e.nodes) + SerInstruction(e.instr.(next := next))
  }

  function WordRecords(items: seq<Item>, k: nat, next: nat): (r: seq<byte>)
    requires ItemsOk(items) && k < |items| && next <= LIMIT
    ensures |r| == Base(items, k + 1) - Base(items, k)
  {
    RecordsOf(EmissionOf(items, k), next)
  }

  /** The pool when the recursion reaches word k: no instruction has been linked yet. */
  function Unlinked(items: seq<Item>, k: nat): (r: seq<byte>)
    requires ItemsOk(items) && k <= |items|
    ensures |r| == Base(items, k)
  {
    if k == 0 then [] else Unlinked(items, k - 1) + WordRecords(items, k - 1, 0)
  }

  /** The linked records from word k to the last. */
  function Image(items: seq<Item>, k: nat): (r: seq<byte>)
    requires ItemsOk(items) && k <= |items|
    ensures |r| == Base(items, |items|) - Base(items, k)
    decreases |items| - k
  {
    if k == |items| then [] else WordRecords(items, k, NextOf(items, k)) + Image(items, k + 1)
  }

  // ---- linking ----

  /** `next` is in the last four bytes of the records of a word. */
  lemma RecordsLinked(e: Emission, next: nat)
    requires NodesOk(e.nodes) && InstructionOk(e.instr) && next <= LIMIT && e.instr.next == 0
    ensures var r := RecordsOf(e, 0);
            |r| >= 4 && r[..|r| - 4] + LE(next, 4) == RecordsOf(e, next)
  {
    assert Pow256(4) == U32;
    assert e.instr.(next := 0) == e.instr;
    NextWriteBack(e.instr, next);
    TailReplaced(SerAll(e.nodes), SerInstruction(e.instr), LE(next, 4), SerInstruction(e.instr.(next := next)));
  }

  lemma TailReplaced(a: seq<byte>, b: seq<byte>, tail: seq<byte>, c: seq<byte>)
    requires |b| >= 4 && b[..|b| - 4] + tail == c
    ensures (a + b)[..|a + b| - 4] + tail == a + c
  {
    assert (a + b)[..|a + b| - 4] == a + b[..|b| - 4];
  }

  lemma LinkBytes(u0: seq<byte>, u1: seq<byte>, rec: seq<byte>, tail: seq<byte>, linked: seq<byte>,
                  rest: seq<byte>, image: seq<byte>, at: nat)
    requires |rec| >= 4 && |tail| == 4 && rec[..|rec| - 4] + tail == linked
    requires u1 == u0 + rec && image == linked + rest && at == |u1| - 4
    ensures (u1 + rest)[..at] + tail + (u1 + rest)[at + 4..] == u0 + image
  {
    assert (u1 + rest)[..at] == u0 + rec[..|rec| - 4];
    assert (u1 + rest)[at + 4..] == rest;
  }

  lemma UnlinkedStep(items: seq<Item>, k: nat)
    requires ItemsOk(items) && k < |items|
    ensures Unlinked(items, k + 1) == Unlinked(items, k) + WordRecords(items, k, 0)
  {
  }

  lemma ImageStep(items: seq<Item>, k: nat)
    requires ItemsOk(items) && k < |items|
    ensures Image(items, k) == WordRecords(items, k, NextOf(items, k)) + Image(items, k + 1)
  {
  }

  lemma LastImage(items: seq<Item>, before: seq<byte>)
    requires ItemsOk(items)
    ensures before + Image(items, |items|) == before
  {
  }

  lemma WordRecordsLinked(items: seq<Item>, k: nat, next: nat)
    requires ItemsOk(items) && k < |items| && next <= LIMIT
    ensures var r := WordRecords(items, k, 0);
            |r| >= 4 && r[..|r| - 4] + LE(next, 4) == WordRecords(items, k, next)
  {
    RecordsLinked(EmissionOf(items, k), next);
  }

  /** The bytes of `next` of word k end its records. */
  function NextOffset(items: seq<Item>, k: nat): (r: nat)
    requires ItemsOk(items) && k < |items|
    ensures r + 4 == Base(items, k + 1)
  {
    InstrHandle(items, k) + OFFSETOF_NEXT
  }

  /** Writing the `next` of word k, when everything after it is linked, links word k. */
  lemma LinkImage(items: seq<Item>, k: nat, u1: seq<byte>, rest: seq<byte>, at: nat, next: nat)
    requires ItemsOk(items) && k < |items|
    requires u1 == Unlinked(items, k + 1) && rest == Image(items, k + 1)
    requires at == NextOffset(items, k) && next == NextOf(items, k)
    ensures at + 4 == |u1|
    ensures (u1 + rest)[..at] + LE(next, 4) + (u1 + rest)[at + 4..] == Unlinked(items, k) + Image(items, k)
  {
    hide Unlinked, Image, WordRecords, LE, NextOf;
    UnlinkedStep(items, k);
    ImageStep(items, k);
    WordRecordsLinked(items, k, next);
    LinkBytes(Unlinked(items, k), u1, WordRecords(items, k, 0), LE(next, 4), WordRecords(items, k, next),
              rest, Image(items, k), at);
  }

  // ---- what the pool holds at the end ----

  /** The linked records of the words before k. */
  function Linked(items: seq<Item>, k: nat): (r: seq<byte>)
    requires ItemsOk(items) && k <= |items|
    ensures |r| == Base(items, k)
  {
    if k == 0 then [] else Linked(items, k - 1) + WordRecords(items, k - 1, NextOf(items, k - 1))
  }

  lemma LinkedStep(items: seq<Item>, k: nat)
    requires ItemsOk(items) && k < |items|
    ensures Linked(items, k + 1) == Linked(items, k) + WordRecords(items, k, NextOf(items, k))
  {
  }

  lemma {:induction false} LinkedThenImage(items: seq<Item>, k: nat)
    requires ItemsOk(items) && k <= |items|
    ensures Linked(items, k) + Image(items, k) == Linked(items, |items|)
    decreases |items| - k
  {
    hide WordRecords;
    if k == |items| {
      assert Linked(items, k) + [] == Linked(items, k);
    } else {
      LinkedThenImage(items, k + 1);
      LinkedStep(items, k);
      ImageStep(items, k);
      Associate(Linked(items, k), WordRecords(items, k, NextOf(items, k)), Image(items, k + 1));
    }
  }

  lemma Associate(a: seq<byte>, b: seq<byte>, c: seq<byte>)
    ensures a + b + c == a + (b + c)
  {
  }

  /** The pool at the end of a run. */
  function Final(items: seq<Item>): (r: seq<byte>)
    requires ItemsOk(items)
    ensures |r| == Base(items, |items|)
  {
    Linked(items, |items|)
  }

  lemma FinalIsImage(items: seq<Item>)
    requires ItemsOk(items)
    ensures Image(items, 0) == Final(items)
  {
    LinkedThenImage(items, 0);
    assert [] + Image(items, 0) == Image(items, 0);
  }

  /** Word k's records are still where they were put. */
  lemma RecordsStay(items: seq<Item>, k: nat)
    requires ItemsOk(items) && k < |items|
    ensures Base(items, k) <= Base(items, k + 1) <= |Final(items)|
    ensures Final(items)[Base(items, k)..Base(items, k + 1)] == WordRecords(items, k, NextOf(items, k))
  {
    LinkedThenImage(items, k + 1);
    LinkedStep(items, k);
    MiddleOf(Linked(items, k), WordRecords(items, k, NextOf(items, k)), Image(items, k + 1));
  }

  lemma MiddleOf(a: seq<byte>, b: seq<byte>, c: seq<byte>)
    ensures (a + b + c)[|a|..|a| + |b|] == b
  {
  }

  lemma {:induction false} BaseMonotone(items: seq<Item>, j: nat, k: nat)
    requires ItemsOk(items) && j <= k <= |items|
    ensures Base(items, j) <= Base(items, k)
    ensures j < k ==> Base(items, j) + SIZEOF_INSTRUCTION <= Base(items, k)
    decreases k - j
  {
    if j == k {
    } else {
      BaseMonotone(items, j, k - 1);
    }
  }

  // ---- list shape ----

  function InstructionAt(mem: seq<byte>, h: nat): Instruction
    requires h + SIZEOF_INSTRUCTION <= |mem|
  {
    ParseInstruction(mem[h..h + SIZEOF_INSTRUCTION])
  }

  lemma SliceInSlice(mem: seq<byte>, base: nat, all: seq<byte>, a: nat, b: nat, piece: seq<byte>)
    requires a <= b <= |all| && base + |all| <= |mem|
    requires mem[base..base + |all|] == all && all[a..b] == piece
    ensures mem[base + a..base + b] == piece
  {
    forall i | 0 <= i < b - a
      ensures mem[base + a..base + b][i] == piece[i]
    {
      assert mem[base + a..base + b][i] == mem[base..base + |all|][a + i];
    }
  }

  lemma ExpressionIn(mem: seq<byte>, h: nat, e: Expression)
    requires ExpressionOk(e) && h + SIZEOF_EXPRESSION <= |mem| && mem[h..h + SIZEOF_EXPRESSION] == SerExpression(e)
    ensures ExpressionAt(mem, h) == e
  {
    ExpressionRoundTrip(e);
  }

  lemma InstructionIn(mem: seq<byte>, h: nat, i: Instruction)
    requires InstructionOk(i) && h + SIZEOF_INSTRUCTION <= |mem| && mem[h..h + SIZEOF_INSTRUCTION] == SerInstruction(i)
    ensures InstructionAt(mem, h) == i
  {
    InstructionRoundTrip(i);
  }

  lemma RecordsParts(e: Emission, next: nat)
    requires NodesOk(e.nodes) && InstructionOk(e.instr) && next <= LIMIT
    ensures InstructionOk(e.instr.(next := next))
    ensures var r, n := RecordsOf(e, next), HandleAt(0, |e.nodes|);
            && n + SIZEOF_INSTRUCTION == |r|
            && r[0..n] == SerAll(e.nodes)
            && r[n..|r|] == SerInstruction(e.instr.(next := next))
  {
    assert Pow256(4) == U32;
    PairParts(SerAll(e.nodes), SerInstruction(e.instr.(next := next)));
  }

  lemma PairParts(a: seq<byte>, b: seq<byte>)
    ensures (a + b)[..|a|] == a && (a + b)[|a|..] == b
  {
  }

  lemma RecordIn(mem: seq<byte>, base: nat, e: Emission, next: nat)
    requires NodesOk(e.nodes) && InstructionOk(e.instr) && next <= LIMIT
    requires base + |RecordsOf(e, next)| <= |mem| && mem[base..base + |RecordsOf(e, next)|] == RecordsOf(e, next)
    ensures var h := HandleAt(base, |e.nodes|);
            h + SIZEOF_INSTRUCTION <= |mem| && InstructionAt(mem, h) == e.instr.(next := next)
    ensures mem[base..HandleAt(base, |e.nodes|)] == SerAll(e.nodes)
  {
    hide RecordsOf, SerAll, SerInstruction, InstructionAt;
    var r, n := RecordsOf(e, next), HandleAt(0, |e.nodes|);
    RecordsParts(e, next);
    SliceInSlice(mem, base, r, 0, n, SerAll(e.nodes));
    SliceInSlice(mem, base, r, n, |r|, SerInstruction(e.instr.(next := next)));
    InstructionIn(mem, base + n, e.instr.(next := next));
  }

  /** The record of word k in the final pool is the instruction the word was decoded to, with only
      `next` filled in. */
  lemma InstructionStays(items: seq<Item>, k: nat)
    requires ItemsOk(items) && k < |items|
    ensures var h := InstrHandle(items, k);
            && h + SIZEOF_INSTRUCTION <= |Final(items)|
            && InstructionAt(Final(items), h) == EmissionOf(items, k).instr.(next := NextOf(items, k))
  {
    hide Final, EmissionOf, InstructionAt;
    RecordsStay(items, k);
    RecordIn(Final(items), Base(items, k), EmissionOf(items, k), NextOf(items, k));
  }

  /** Following `next` a number of times; 0 when there is no record to follow. */
  function Follow(mem: seq<byte>, entry: nat, times: nat): nat {
    if times == 0 then entry
    else
      var h := Follow(mem, entry, times - 1);
      if h + SIZEOF_INSTRUCTION <= |mem| then InstructionAt(mem, h).next else 0
  }

  /** Following `next` from the first instruction visits the records in program order, and the last
      one's `next` is 0. */
  lemma {:induction false} FollowVisits(items: seq<Item>, k: nat)
    requires ItemsOk(items) && 0 < |items| && k <= |items|
    ensures Follow(Final(items), InstrHandle(items, 0), k) == if k < |items| then InstrHandle(items, k) else 0
  {
    hide Final, EmissionOf, InstructionAt;
    if k == 0 {
    } else {
      FollowVisits(items, k - 1);
      InstructionStays(items, k - 1);
    }
  }

  /** Handles strictly increase, so 0, which ends the list, is the handle of no successor. */
  lemma HandlesIncrease(items: seq<Item>, j: nat, k: nat)
    requires ItemsOk(items) && j < k < |items|
    ensures InstrHandle(items, j) < InstrHandle(items, k)
    ensures NextOf(items, k - 1) == InstrHandle(items, k) != 0
  {
    BaseMonotone(items, j + 1, k);
  }

  // ---- trees ----

  lemma FrontSlice(front: seq<byte>, last: seq<byte>, a: nat, b: nat)
    requires a <= b <= |front|
    ensures (front + last)[a..b] == front[a..b]
  {
  }

  lemma {:induction false} SerAllAt(nodes: seq<Expression>, i: nat)
    requires NodesOk(nodes) && i < |nodes|
    ensures SerAll(nodes)[HandleAt(0, i)..HandleAt(0, i + 1)] == SerExpression(nodes[i])
    decreases |nodes|
  {
    var front, last := nodes[..|nodes| - 1], nodes[|nodes| - 1];
    if i == |nodes| - 1 {
      PairParts(SerAll(front), SerExpression(last));
    } else {
      SerAllAt(front, i);
      FrontSlice(SerAll(front), SerExpression(last), HandleAt(0, i), HandleAt(0, i + 1));
    }
  }

  lemma NodeIn(mem: seq<byte>, base: nat, nodes: seq<Expression>, i: nat)
    requires NodesOk(nodes) && i < |nodes| && HandleAt(base, |nodes|) <= |mem|
    requires mem[base..HandleAt(base, |nodes|)] == SerAll(nodes)
    ensures ExpressionAt(mem, HandleAt(base, i)) == nodes[i]
  {
    hide SerAll, SerExpression, ExpressionAt;
    SerAllAt(nodes, i);
    SliceInSlice(mem, base, SerAll(nodes), HandleAt(0, i), HandleAt(0, i + 1), SerExpression(nodes[i]));
    ExpressionIn(mem, HandleAt(base, i), nodes[i]);
  }

  lemma NodesHeld(mem: seq<byte>, base: nat, nodes: seq<Expression>)
    requires NodesOk(nodes) && HandleAt(base, |nodes|) <= |mem|
    requires mem[base..HandleAt(base, |nodes|)] == SerAll(nodes)
    ensures Holds(mem, base, nodes)
  {
    forall i | 0 <= i < |nodes|
      ensures ExpressionAt(mem, HandleAt(base, i)) == nodes[i]
    {
      NodeIn(mem, base, nodes, i);
    }
  }

  /** In any pool that has the nodes of a decoded word in their place, the word's instruction holds an
      expression that stands for the word's tree. */
  lemma TreeHeld(mem: seq<byte>, base: nat, it: Item)
    requires ItemOk(it) && it.WithTree? && HandleAt(base, 6) <= LIMIT
    requires var e := EmitItem(it, base);
             && NodesOk(e.nodes) && HandleAt(base, |e.nodes|) <= |mem|
              && mem[base..HandleAt(base, |e.nodes|)] == SerAll(e.nodes)
    ensures var e := EmitItem(it, base);
            e.instr.body.Math? && Represents(mem, base, HandleAt(base, |e.nodes|), e.instr.body.expr, it.tree)
  {
    var b := Build(it.tree, [], base);
    NodesHeld(mem, base, b.nodes);
    BuildRepresents(mem, base, it.tree, [], b.nodes);
  }

  lemma NodesStay(items: seq<Item>, k: nat)
    requires ItemsOk(items) && k < |items|
    ensures InstrHandle(items, k) <= |Final(items)|
    ensures Final(items)[Base(items, k)..InstrHandle(items, k)] == SerAll(EmissionOf(items, k).nodes)
  {
    hide Final, EmissionOf, SerAll;
    RecordsStay(items, k);
    RecordIn(Final(items), Base(items, k), EmissionOf(items, k), NextOf(items, k));
  }

  /** The pool right after word k has been decoded: nothing is linked yet, and only the nodes of word k
      have followed the records of the earlier words. */
  function Decoded(items: seq<Item>, k: nat): (r: seq<byte>)
    requires ItemsOk(items) && k < |items|
    ensures |r| == InstrHandle(items, k)
  {
    Unlinked(items, k) + SerAll(EmissionOf(items, k).nodes)
  }

  /** Trees are well founded: in the final pool the expression of every instruction that has one stands
      for the tree its word was decoded to, with all its nodes between the records of the previous word
      and its own. */
  lemma TreeStays(items: seq<Item>, k: nat)
    requires ItemsOk(items) && k < |items| && items[k].WithTree?
    ensures InstrHandle(items, k) + SIZEOF_INSTRUCTION <= |Final(items)|
    ensures var i := InstructionAt(Final(items), InstrHandle(items, k));
            && i.body.Math?
            && Represents(Final(items), Base(items, k), InstrHandle(items, k), i.body.expr, items[k].tree)
  {
    InstructionStays(items, k);
    NodesStay(items, k);
    TreeHeld(Final(items), Base(items, k), items[k]);
  }

  /** Running an instruction's expression in the final pool gives the value and the flags it gave right
      after the word was decoded, and that its tree means, whatever was pushed and linked in between. */
  lemma EvaluationStable(items: seq<Item>, k: nat, s: State, w: nat)
    requires ItemsOk(items) && k < |items| && items[k].WithTree? && StateOk(s)
    ensures var h, e := InstrHandle(items, k), EmissionOf(items, k).instr.body;
            var meant := Outcome(EvalTree(items[k].tree, s, w), TreeFlags(items[k].tree, s, w));
            && e.Math?
            && RunExpression(Decoded(items, k), h, e.expr, s, w) == meant
            && RunExpression(Final(items), h, e.expr, s, w) == meant
  {
    hide RunExpression, EvalTree, TreeFlags, Represents, Final, SerAll, Unlinked;
    var base, h, e := Base(items, k), InstrHandle(items, k), EmissionOf(items, k).instr.body;
    PairParts(Unlinked(items, k), SerAll(EmissionOf(items, k).nodes));
    TreeHeld(Decoded(items, k), base, items[k]);
    RunRepresented(Decoded(items, k), base, h, e.expr, items[k].tree, s, w);
    NodesStay(items, k);
    TreeHeld(Final(items), base, items[k]);
    RunRepresented(Final(items), base, h, e.expr, items[k].tree, s, w);
  }

  // ---- instructions that were not decoded ----

  /** Whether a handle names an expression record. */
  ghost predicate NamesExpression(items: seq<Item>, h: nat)
    requires ItemsOk(items)
  {
    exists k, i {:trigger Slot(items, k, i)} ::
      0 <= k < |items| && 0 <= i < ItemCount(items[k]) && h == Slot(items, k, i)
  }

  function Slot(items: seq<Item>, k: nat, i: nat): nat
    requires ItemsOk(items) && k < |items|
  {
    HandleAt(Base(items, k), i)
  }

  /** The blank expression of an instruction that was not decoded has handle 0 for both its children. It
      names an expression exactly when the first word of the buffer pushed one. */
  lemma BlankChildIff(items: seq<Item>)
    requires ItemsOk(items) && 0 < |items|
    ensures NamesExpression(items, BLANK.left) <==> ItemCount(items[0]) > 0
  {
    if ItemCount(items[0]) > 0 {
      assert BLANK.left == Slot(items, 0, 0);
    } else if NamesExpression(items, BLANK.left) {
      var k, i :| 0 <= k < |items| && 0 <= i < ItemCount(items[k]) && BLANK.left == Slot(items, k, i);
      BaseMonotone(items, 0, k);
    }
  }
}
